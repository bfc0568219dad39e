/** What `traverse_paths` returns, stated without the search: the trails of the graph. */
module TrailsExact {
  import opened Prelude
  import opened Graph
  import opened Db
  import opened Edges
  import opened Traverse
  import opened Trails

  // ---------------------------------------------------------------- candidates

  lemma ParallelEdgesSpec(edges: set<Edge>, src: u64, dst: u64, lbl: Name)
    ensures NoDup(ParallelEdges(edges, src, dst, lbl))
    ensures forall e :: e in ParallelEdges(edges, src, dst, lbl) <==> e in Parallel(edges, src, dst, lbl)
  {
    var nums, es := SortedWords(ParallelSeqs(edges, src, dst, lbl)), ParallelEdges(edges, src, dst, lbl);
    forall e | e in es ensures e in Parallel(edges, src, dst, lbl) {
      var i :| 0 <= i < |es| && es[i] == e;
      assert nums[i] in Elems(nums);
      ParallelSeqsIff(edges, src, dst, lbl, nums[i]);
    }
    forall e | e in Parallel(edges, src, dst, lbl) ensures e in es {
      assert e.num in ParallelSeqs(edges, src, dst, lbl);
      assert e.num in Elems(nums);
      var i :| 0 <= i < |nums| && nums[i] == e.num;
      assert es[i] == e;
    }
  }

  /** The fetched edges of a neighbour are the connecting ones of that type, each once. */
  lemma DirectedSpec(edges: set<Edge>, n: u64, m: u64, lbl: Name, direction: Direction)
    ensures NoDup(Directed(edges, n, m, lbl, direction))
    ensures forall e :: e in Directed(edges, n, m, lbl, direction) <==>
              e in edges && e.lbl == lbl && Connects(direction, e, n, m)
  {
    hide ParallelEdges;
    ParallelEdgesSpec(edges, n, m, lbl);
    ParallelEdgesSpec(edges, m, n, lbl);
    var fwd, rev := ParallelEdges(edges, n, m, lbl), ParallelEdges(edges, m, n, lbl);
    if n != m {
      forall e | e in fwd ensures e !in rev {
        assert e in Parallel(edges, n, m, lbl);
      }
      NoDupConcat(fwd, rev);
    }
  }

  /** Steps along one label to one of the listed neighbours. */
  ghost predicate StepTo(q: Query, n: u64, lbl: Name, nbrs: seq<u64>, c: Step) {
    c.edge in q.edges && c.edge.lbl == lbl && Connects(q.direction, c.edge, n, c.dst) && c.dst in nbrs
  }

  lemma {:induction false} StepsAlongSpec(q: Query, n: u64, lbl: Name, nbrs: seq<u64>, i: nat)
    requires i <= |nbrs| && NoDup(nbrs)
    ensures NoDup(StepsAlong(q, n, lbl, nbrs, i))
    ensures forall c :: c in StepsAlong(q, n, lbl, nbrs, i) <==> StepTo(q, n, lbl, nbrs[..i], c)
    decreases i
  {
    hide Directed, Connects;
    if i > 0 {
      var m := nbrs[i - 1];
      var before, es := StepsAlong(q, n, lbl, nbrs, i - 1), Directed(q.edges.Keys, n, m, lbl, q.direction);
      StepsAlongSpec(q, n, lbl, nbrs, i - 1);
      DirectedSpec(q.edges.Keys, n, m, lbl, q.direction);
      TakeOneMore(nbrs, i - 1, m);
      assert m !in nbrs[..i - 1];
      StepsToSpec(es, m);
      forall c | c in before ensures c !in StepsTo(es, m) {
        assert StepTo(q, n, lbl, nbrs[..i - 1], c);
      }
      NoDupConcat(before, StepsTo(es, m));
      forall c
        ensures c in StepsAlong(q, n, lbl, nbrs, i) <==> StepTo(q, n, lbl, nbrs[..i], c)
      {
        assert c in StepsAlong(q, n, lbl, nbrs, i) <==> c in before || c in StepsTo(es, m);
        assert c in StepsTo(es, m) <==> c.dst == m && c.edge in es;
      }
    }
  }

  lemma StepsToSpec(es: seq<Edge>, m: u64)
    requires NoDup(es)
    ensures NoDup(StepsTo(es, m))
    ensures forall c :: c in StepsTo(es, m) <==> c.dst == m && c.edge in es
  {
    forall c: Step | c.dst == m && c.edge in es ensures c in StepsTo(es, m) {
      var i :| 0 <= i < |es| && es[i] == c.edge;
      assert StepsTo(es, m)[i] == c;
    }
  }

  lemma AlongLabelSpec(q: Query, n: u64, lbl: Name)
    ensures NoDup(AlongLabel(q, n, lbl))
    ensures forall c :: c in AlongLabel(q, n, lbl) <==>
              c.edge in q.edges && c.edge.lbl == lbl && Connects(q.direction, c.edge, n, c.dst)
  {
    hide NeighborList;
    var nbrs := NeighborList(q.edges.Keys, n, lbl, q.direction);
    NeighborListSpec(q.edges.Keys, n, lbl, q.direction);
    StepsAlongSpec(q, n, lbl, nbrs, |nbrs|);
    assert nbrs[..|nbrs|] == nbrs;
    forall c: Step | c.edge in q.edges && c.edge.lbl == lbl && Connects(q.direction, c.edge, n, c.dst)
      ensures c.dst in nbrs
    {
      ConnectedIsNeighbor(q.edges.Keys, c.edge, n, c.dst, q.direction);
      assert c.dst in Elems(nbrs);
    }
  }

  lemma ConnectedIsNeighbor(edges: set<Edge>, e: Edge, n: u64, m: u64, direction: Direction)
    requires e in edges && Connects(direction, e, n, m)
    ensures m in Neighborhood(edges, n, e.lbl, direction)
  {
    if e.src == n && e.dst == m {
      assert Near(e, true) == n && Far(e, true) == m;
      assert Far(e, true) in FarEnds(edges, n, e.lbl, true);
    }
    if e.dst == n && e.src == m {
      assert Near(e, false) == n && Far(e, false) == m;
      assert Far(e, false) in FarEnds(edges, n, e.lbl, false);
    }
  }

  /** How often a label list asks for a type; a list that names none asks for every type once. */
  function Times(labels: seq<Name>, lbl: Name): nat {
    if labels == [] then 1 else multiset(labels)[lbl]
  }

  function Count<T(==)>(s: seq<T>, x: T): nat {
    multiset(s)[x]
  }

  lemma CountConcat<T>(a: seq<T>, b: seq<T>, x: T)
    ensures Count(a + b, x) == Count(a, x) + Count(b, x)
  {
  }

  lemma {:induction false} CountNoDup<T>(s: seq<T>, x: T)
    requires NoDup(s)
    ensures Count(s, x) == if x in s then 1 else 0
  {
    if s != [] {
      var init, last := s[..|s| - 1], s[|s| - 1];
      assert s == init + [last];
      CountNoDup(init, x);
      assert last !in init;
    }
  }

  lemma {:induction false} NoDupByCount<T(!new)>(s: seq<T>)
    requires forall x :: Count(s, x) <= 1
    ensures NoDup(s)
  {
    if s != [] {
      var init, last := s[..|s| - 1], s[|s| - 1];
      assert s == init + [last];
      forall x ensures Count(init, x) <= 1 {
        CountConcat(init, [last], x);
      }
      NoDupByCount(init);
      CountConcat(init, [last], last);
      CountMember(init, last);
    }
  }

  lemma CountMember<T>(s: seq<T>, x: T)
    ensures x in s <==> Count(s, x) > 0
  {
    assert x in s <==> x in multiset(s);
  }

  lemma {:induction false} AlongLabelsSpec(q: Query, n: u64, labels: seq<Name>, i: nat, c: Step)
    requires i <= |labels|
    ensures Count(AlongLabels(q, n, labels, i), c) ==
            if c.edge in q.edges && Connects(q.direction, c.edge, n, c.dst) then Count(labels[..i], c.edge.lbl) else 0
    decreases i
  {
    hide AlongLabel, Connects;
    if i > 0 {
      var lbl := labels[i - 1];
      AlongLabelsSpec(q, n, labels, i - 1, c);
      AlongLabelSpec(q, n, lbl);
      CountNoDup(AlongLabel(q, n, lbl), c);
      TakeOneMore(labels, i - 1, lbl);
      CountConcat(AlongLabels(q, n, labels, i - 1), AlongLabel(q, n, lbl), c);
      CountConcat(labels[..i - 1], [lbl], c.edge.lbl);
    }
  }

  /** The candidates at a node are exactly the possible steps from it, each as often as its type is
      asked for: parallel edges apart, and a self-loop once although it is listed under both directions. */
  lemma CandidatesSpec(q: Query, n: u64, c: Step)
    ensures Count(Candidates(q, n), c) == if Possible(q, n, c) then Times(q.labels, c.edge.lbl) else 0
  {
    hide AllLabels, Neighborhood, Connects, AlongLabels;
    var labels := EffectiveLabels(q, n);
    AlongLabelsSpec(q, n, labels, |labels|, c);
    assert labels[..|labels|] == labels;
    CountMember(labels, c.edge.lbl);
    if q.labels == [] {
      AllLabelsSpec(q.edges.Keys, n, q.direction);
      CountNoDup(labels, c.edge.lbl);
      if c.edge in q.edges && Connects(q.direction, c.edge, n, c.dst) {
        ConnectedIsNeighbor(q.edges.Keys, c.edge, n, c.dst, q.direction);
      }
    }
  }

  // ---------------------------------------------------------------- trails step by step

  lemma TrailGrows(q: Query, path: Trail, c: Step)
    requires IsTrail(q, path) && Allowed(q, End(q.start, path), c) && c.edge !in EdgesOf(path)
    ensures IsTrail(q, path + [c])
  {
    hide Allowed;
    var p := path + [c];
    forall i | 0 <= i < |p| ensures Allowed(q, End(q.start, p[..i]), p[i]) {
      if i < |path| {
        assert p[i] == path[i] && p[..i] == path[..i];
      } else {
        assert p[..i] == path;
      }
    }
    forall i, j | 0 <= i < j < |p| ensures p[i].edge != p[j].edge {
      if j == |path| {
        assert path[i].edge in EdgesOf(path);
      }
    }
  }

  lemma TrailGrew(q: Query, path: Trail, c: Step)
    requires IsTrail(q, path + [c])
    ensures Allowed(q, End(q.start, path), c) && c.edge !in EdgesOf(path)
  {
    hide Allowed;
    var p := path + [c];
    assert p[..|path|] == path && p[|path|] == c;
    assert Allowed(q, End(q.start, p[..|path|]), p[|path|]);
    forall e | e in EdgesOf(path) ensures e != c.edge {
      var i :| 0 <= i < |path| && path[i].edge == e;
      assert p[i].edge != p[|path|].edge;
    }
  }

  lemma TrailPrefix(q: Query, path: Trail, i: nat)
    requires IsTrail(q, path) && i <= |path|
    ensures IsTrail(q, path[..i])
  {
    hide Allowed;
    var p := path[..i];
    assert forall k :: 0 <= k < i ==> p[k] == path[k] && p[..k] == path[..k];
  }

  // ---------------------------------------------------------------- rows of the trace

  ghost function Rows(visits: seq<Option<Found>>): seq<Found> {
    if visits == [] then []
    else
      var init := Rows(visits[..|visits| - 1]);
      match visits[|visits| - 1]
      case None => init
      case Some(f) => init + [f]
  }

  lemma {:induction false} RowsConcat(a: seq<Option<Found>>, b: seq<Option<Found>>)
    ensures Rows(a + b) == Rows(a) + Rows(b)
    decreases |b|
  {
    if b == [] {
      assert a + b == a;
    } else {
      assert (a + b)[..|a + b| - 1] == a + b[..|b| - 1];
      RowsConcat(a, b[..|b| - 1]);
    }
  }

  /** Rows given by a frame itself: the trails one step longer. */
  ghost predicate OneStep(q: Query, path: Trail, f: Found) {
    |f.1| == |path| + 1 && path <= f.1 && IsAnswer(q, f)
  }

  ghost predicate Longer(q: Query, path: Trail, f: Found) {
    |f.1| > |path| && path <= f.1 && IsAnswer(q, f)
  }

  lemma AcceptedIsTrail(q: Query, path: Trail, c: Step)
    requires IsTrail(q, path) && Possible(q, End(q.start, path), c)
    ensures Accepted(q, path, c) <==> IsTrail(q, path + [c])
  {
    hide Matches, EdgesOf;
    if Accepted(q, path, c) {
      TrailGrows(q, path, c);
    }
    if IsTrail(q, path + [c]) {
      TrailGrew(q, path, c);
    }
  }

  /** All candidates are possible steps. */
  ghost predicate AllPossible(q: Query, path: Trail, cands: seq<Step>) {
    forall i :: 0 <= i < |cands| ==> Possible(q, End(q.start, path), cands[i])
  }

  lemma {:induction false} VisitRows(q: Query, path: Trail, cands: seq<Step>, f: Found)
    requires IsTrail(q, path) && |path| < q.maxHops && AllPossible(q, path, cands)
    ensures Count(Rows(Visits(q, path, cands)), f) == if OneStep(q, path, f) then Count(cands, f.1[|path|]) else 0
    decreases |cands|
  {
    hide IsTrail, Possible, Accepted;
    if cands != [] {
      var init, c := cands[..|cands| - 1], cands[|cands| - 1];
      assert cands == init + [c];
      VisitRows(q, path, init, f);
      assert Visits(q, path, cands)[..|cands| - 1] == Visits(q, path, init);
      AcceptedIsTrail(q, path, c);
      var before, row := Rows(Visits(q, path, init)), (c.dst, path + [c]);
      OneRow(q, path, c, f);
      if OneStep(q, path, f) {
        CountConcat(init, [c], f.1[|path|]);
      }
      CountConcat(before, [row], f);
    }
  }

  lemma OneRow(q: Query, path: Trail, c: Step, f: Found)
    requires |path| < q.maxHops
    ensures var row := (c.dst, path + [c]);
            && (OneStep(q, path, f) && f.1[|path|] == c ==> f == row)
            && (f == row ==> |f.1| > |path| && f.1[|path|] == c &&
                             (OneStep(q, path, f) <==> IsTrail(q, path + [c]) && |path| + 1 >= q.minHops))
  {
    hide IsTrail;
    if OneStep(q, path, f) && f.1[|path|] == c {
      assert f.1 == path + [c];
    }
  }

  /** The frames pushed are the trails one step longer that can go on. */
  ghost predicate IsKid(q: Query, path: Trail, p: Trail) {
    |p| == |path| + 1 < q.maxHops && path <= p && IsTrail(q, p)
  }

  lemma {:induction false} KidsSpec(q: Query, path: Trail, cands: seq<Step>, p: Trail)
    requires IsTrail(q, path) && AllPossible(q, path, cands)
    ensures Count(Kids(q, path, cands), p) == if IsKid(q, path, p) then Count(cands, p[|path|]) else 0
    decreases |cands|
  {
    hide IsTrail, Possible, Accepted;
    if cands != [] {
      var init, c := cands[..|cands| - 1], cands[|cands| - 1];
      assert cands == init + [c];
      KidsSpec(q, path, init, p);
      AcceptedIsTrail(q, path, c);
      assert (path + [c])[|path|] == c;
      if IsKid(q, path, p) {
        CountConcat(init, [c], p[|path|]);
        assert p[|path|] == c ==> p == path + [c];
      }
      CountConcat(Kids(q, path, init), [path + [c]], p);
    }
  }

  lemma LastStepPossible(q: Query, path: Trail, p: Trail)
    requires IsTrail(q, p) && |path| < |p| && path <= p
    ensures Possible(q, End(q.start, path), p[|path|])
    ensures IsTrail(q, p[..|path| + 1])
  {
    hide Connects, Matches;
    assert p[..|path|] == path;
    assert Allowed(q, End(q.start, p[..|path|]), p[|path|]);
    TrailPrefix(q, p, |path| + 1);
  }

  /** How often the search reports a path: the product of how often each of its types is asked for. */
  function Weight(labels: seq<Name>, steps: Trail): nat {
    if steps == [] then 1 else Times(labels, steps[0].edge.lbl) * Weight(labels, steps[1..])
  }

  lemma CandidatesPossible(q: Query, path: Trail)
    ensures AllPossible(q, path, Candidates(q, End(q.start, path)))
  {
    hide Possible, Candidates;
    var cands := Candidates(q, End(q.start, path));
    forall i | 0 <= i < |cands| ensures Possible(q, End(q.start, path), cands[i]) {
      CandidatesSpec(q, End(q.start, path), cands[i]);
      CountMember(cands, cands[i]);
    }
  }

  /** The rows of a frame's whole subtree are exactly the longer trails that begin with its path
      and fall in the hop range, each as often as its further types are asked for. */
  lemma {:induction false} TraceExact(q: Query, path: Trail, f: Found)
    requires IsTrail(q, path) && |path| <= q.maxHops
    ensures Count(Rows(Trace(q, path)), f) == if Longer(q, path, f) then Weight(q.labels, f.1[|path|..]) else 0
    decreases q.maxHops - |path|, 1, 0
  {
    hide IsTrail, Possible, Candidates, Visits, Kids, Weight, Times;
    if |path| < q.maxHops {
      var cands := Candidates(q, End(q.start, path));
      var kids := Kids(q, path, cands);
      CandidatesPossible(q, path);
      VisitRows(q, path, cands, f);
      KidsAreKids(q, path, cands);
      KidTracesExact(q, path, kids, |kids|, f);
      RowsConcat(Visits(q, path, cands), KidTraces(q, path, kids, |kids|));
      CountConcat(Rows(Visits(q, path, cands)), Rows(KidTraces(q, path, kids, |kids|)), f);
      assert kids[..|kids|] == kids;
      WeightOfLonger(q, path, cands, f);
    }
  }

  lemma KidsAreKids(q: Query, path: Trail, cands: seq<Step>)
    requires IsTrail(q, path) && AllPossible(q, path, cands)
    ensures forall k :: 0 <= k < |Kids(q, path, cands)| ==> IsKid(q, path, Kids(q, path, cands)[k])
  {
    hide Kids, AllPossible, IsKid, IsTrail;
    var kids := Kids(q, path, cands);
    forall k | 0 <= k < |kids| ensures IsKid(q, path, kids[k]) {
      KidsSpec(q, path, cands, kids[k]);
      CountMember(kids, kids[k]);
    }
  }

  /** A longer trail is reported by the frame itself or below the kid it goes through. */
  lemma WeightOfLonger(q: Query, path: Trail, cands: seq<Step>, f: Found)
    requires IsTrail(q, path) && |path| < q.maxHops && cands == Candidates(q, End(q.start, path))
    ensures (if OneStep(q, path, f) then Count(cands, f.1[|path|]) else 0) +
            (if Below(q, path, f)
             then Count(Kids(q, path, cands), f.1[..|path| + 1]) * Weight(q.labels, f.1[|path| + 1..]) else 0) ==
            if Longer(q, path, f) then Weight(q.labels, f.1[|path|..]) else 0
  {
    hide IsTrail, Possible, Candidates, Kids, Times, Weight, Count, IsAnswer, AllPossible;
    CandidatesPossible(q, path);
    if |f.1| > |path| {
      var p, c := f.1[..|path| + 1], f.1[|path|];
      KidsSpec(q, path, cands, p);
      WeightSplit(q.labels, f.1, |path|);
      assert path <= p <==> path <= f.1;
      if Longer(q, path, f) {
        AnswerIsTrail(q, f);
        LastStepPossible(q, path, f.1);
        CandidatesSpec(q, End(q.start, path), c);
        assert Count(cands, c) == Times(q.labels, c.edge.lbl);
        if |f.1| == |path| + 1 {
          assert Times(q.labels, c.edge.lbl) * 1 == Times(q.labels, c.edge.lbl);
        } else {
          assert IsKid(q, path, p) && p[|path|] == c;
        }
      }
    }
  }

  lemma AnswerIsTrail(q: Query, f: Found)
    requires IsAnswer(q, f)
    ensures IsTrail(q, f.1) && |f.1| <= q.maxHops
  {
  }

  lemma WeightSplit(labels: seq<Name>, steps: Trail, i: nat)
    requires i < |steps|
    ensures Weight(labels, steps[i..]) == Times(labels, steps[i].edge.lbl) * Weight(labels, steps[i + 1..])
    ensures i + 1 == |steps| ==> Weight(labels, steps[i + 1..]) == 1
  {
    hide Times;
    assert steps[i..][0] == steps[i] && steps[i..][1..] == steps[i + 1..];
  }

  /** Reported below a kid: a trail at least two steps longer. */
  ghost predicate Below(q: Query, path: Trail, f: Found) {
    |f.1| > |path| + 1 && Longer(q, f.1[..|path| + 1], f)
  }

  lemma LongerByKid(q: Query, path: Trail, kid: Trail, f: Found)
    requires |kid| == |path| + 1 && IsKid(q, path, kid)
    ensures IsTrail(q, kid) && (Longer(q, kid, f) <==> Below(q, path, f) && kid == f.1[..|path| + 1])
  {
    hide IsTrail, IsAnswer;
    if |f.1| > |path| + 1 {
      assert f.1[..|path| + 1] <= f.1;
    }
  }

  lemma NotBelow(q: Query, path: Trail, f: Found)
    ensures Below(q, path, f) ==> |f.1| > |path| + 1
  {
  }

  lemma NoRows()
    ensures Rows([]) == []
  {
  }

  lemma {:induction false} KidTracesExact(q: Query, path: Trail, kids: seq<Trail>, i: nat, f: Found)
    requires i <= |kids| && |path| < q.maxHops
    requires forall k :: 0 <= k < |kids| ==> |kids[k]| == |path| + 1 && IsKid(q, path, kids[k])
    ensures Count(Rows(KidTraces(q, path, kids, i)), f) ==
            if Below(q, path, f) then Count(kids[..i], f.1[..|path| + 1]) * Weight(q.labels, f.1[|path| + 1..]) else 0
    decreases q.maxHops - |path|, 0, i
  {
    hide IsTrail, Trace, Weight, Count, Longer, Below, IsKid, Rows;
    NotBelow(q, path, f);
    if i > 0 {
      var kid := kids[i - 1];
      assert |kid| == |path| + 1 && IsKid(q, path, kid);
      LongerByKid(q, path, kid, f);
      TraceExact(q, kid, f);
      KidTracesExact(q, path, kids, i - 1, f);
      RowsConcat(Trace(q, kid), KidTraces(q, path, kids, i - 1));
      CountConcat(Rows(Trace(q, kid)), Rows(KidTraces(q, path, kids, i - 1)), f);
      TakeOneMore(kids, i - 1, kid);
      if |f.1| > |path| + 1 {
        var p, w := f.1[..|path| + 1], Weight(q.labels, f.1[|path| + 1..]);
        CountConcat(kids[..i - 1], [kid], p);
        CountOne(kid, p);
        OneKidMore(Count(kids[..i - 1], p), Count([kid], p), w);
      }
    } else {
      NoRows();
      NoCount(f);
      if |f.1| > |path| + 1 {
        assert kids[..0] == [];
        NoCount(f.1[..|path| + 1]);
      }
    }
  }

  lemma CountOne<T>(x: T, y: T)
    ensures Count([x], y) == if x == y then 1 else 0
  {
  }

  lemma NoCount<T>(x: T)
    ensures Count([], x) == 0
  {
  }

  lemma OneKidMore(n: nat, one: nat, w: nat)
    ensures (n + one) * w == n * w + one * w
  {
  }

  // ---------------------------------------------------------------- main results

  /** Every row of the search, without caps. */
  ghost function AllRows(q: Query): seq<Found> {
    ZeroLength(q) + Rows(Trace(q, []))
  }

  /** The rows are exactly the trails from the start with a length in [minHops, maxHops]; each comes as
      often as the product of how often its types are asked for says, so once for distinct labels. */
  lemma AnswersExact(q: Query)
    ensures forall f :: f in AllRows(q) <==> IsAnswer(q, f)
    ensures forall f :: Count(AllRows(q), f) == if IsAnswer(q, f) then Weight(q.labels, f.1) else 0
    ensures NoDup(q.labels) ==> NoDup(AllRows(q))
  {
    hide IsTrail, Trace, Weight, Count;
    forall f
      ensures f in AllRows(q) <==> IsAnswer(q, f)
      ensures Count(AllRows(q), f) == if IsAnswer(q, f) then Weight(q.labels, f.1) else 0
      ensures NoDup(q.labels) ==> Count(AllRows(q), f) <= 1
    {
      AnswerCount(q, f);
      CountMember(AllRows(q), f);
    }
    if NoDup(q.labels) {
      NoDupByCount(AllRows(q));
    }
  }

  /** The row in full: the path starts at the start, each step takes a stored edge from where the last one
      ended, in a direction and of a type asked for, with every property asked for; no edge comes twice; the
      length is in range; and the row names the node at the end. */
  ghost predicate RowWritten(q: Query, f: Found) {
    var (end, path) := f;
    && q.minHops <= |path| <= q.maxHops
    && end == (if |path| == 0 then q.start else path[|path| - 1].dst)
    && (forall i, j :: 0 <= i < |path| && 0 <= j < |path| && path[i].edge == path[j].edge ==> i == j)
    && forall i :: 0 <= i < |path| ==> StepWritten(q, path, i)
  }

  ghost predicate StepWritten(q: Query, path: Trail, i: nat)
    requires i < |path|
  {
    var from, to, e := if i == 0 then q.start else path[i - 1].dst, path[i].dst, path[i].edge;
    && e in q.edges
    && ((q.direction != Incoming && e.src == from && e.dst == to) ||
        (q.direction != Outgoing && e.src == to && e.dst == from))
    && (|q.labels| > 0 ==> exists n :: 0 <= n < |q.labels| && q.labels[n] == e.lbl)
    && forall k :: k in q.filters ==> k in q.edges[e] && q.edges[e][k] == q.filters[k]
  }

  /** The rows of a search without caps are exactly those. */
  lemma RowsWritten(q: Query)
    ensures forall f :: f in AllRows(q) <==> RowWritten(q, f)
  {
    hide AllRows, IsAnswer, RowWritten, Weight;
    AnswersExact(q);
    forall f ensures f in AllRows(q) <==> RowWritten(q, f) {
      AnswerWritten(q, f);
    }
  }

  lemma AnswerWritten(q: Query, f: Found)
    ensures IsAnswer(q, f) <==> RowWritten(q, f)
  {
    var path := f.1;
    forall i | 0 <= i < |path|
      ensures End(q.start, path[..i]) == if i == 0 then q.start else path[i - 1].dst
    {
    }
    if RowWritten(q, f) {
      forall i | 0 <= i < |path| ensures Allowed(q, End(q.start, path[..i]), path[i]) {
        assert StepWritten(q, path, i);
      }
    }
    if IsAnswer(q, f) {
      forall i | 0 <= i < |path| ensures StepWritten(q, path, i) {
        assert Allowed(q, End(q.start, path[..i]), path[i]);
      }
    }
  }

  lemma AnswerCount(q: Query, f: Found)
    ensures Count(AllRows(q), f) == if IsAnswer(q, f) then Weight(q.labels, f.1) else 0
    ensures IsAnswer(q, f) ==> Weight(q.labels, f.1) >= 1 && (NoDup(q.labels) ==> Weight(q.labels, f.1) == 1)
  {
    hide IsTrail, Trace;
    EmptyTrail(q);
    TraceExact(q, [], f);
    CountConcat(ZeroLength(q), Rows(Trace(q, [])), f);
    assert f.1[0..] == f.1 && [] <= f.1;
    if IsAnswer(q, f) {
      TrailWeight(q, f.1);
    }
  }

  lemma TrailWeight(q: Query, path: Trail)
    requires IsTrail(q, path)
    ensures Weight(q.labels, path) >= 1 && (NoDup(q.labels) ==> Weight(q.labels, path) == 1)
  {
    hide Connects, Matches;
    assert forall i :: 0 <= i < |path| ==> Allowed(q, End(q.start, path[..i]), path[i]);
    WeightOf(q.labels, path);
  }

  lemma {:induction false} WeightOf(labels: seq<Name>, steps: Trail)
    requires forall i :: 0 <= i < |steps| ==> labels == [] || steps[i].edge.lbl in labels
    ensures Weight(labels, steps) >= 1 && (NoDup(labels) ==> Weight(labels, steps) == 1)
  {
    if steps != [] {
      WeightOf(labels, steps[1..]);
      CountMember(labels, steps[0].edge.lbl);
      if NoDup(labels) {
        CountNoDup(labels, steps[0].edge.lbl);
      }
    }
  }

  /** The case: with the same label twice one relationship is reported twice. */
  lemma RepeatedLabelRepeatsRows(src: u64, dst: u64, lbl: Name, props: Props)
    ensures var e := Edge(src, dst, lbl, 0);
            Count(AllRows(Query(map[e := props], src, [lbl, lbl], Outgoing, 1, 1, map[])), (dst, [Step(e, dst)])) == 2
  {
    var e := Edge(src, dst, lbl, 0);
    var q, path := Query(map[e := props], src, [lbl, lbl], Outgoing, 1, 1, map[]), [Step(e, dst)];
    assert path[..0] == [] && Allowed(q, End(q.start, path[..0]), path[0]);
    AnswerCount(q, (dst, path));
    assert path[1..] == [] && Weight(q.labels, path[1..]) == 1;
    assert multiset(q.labels)[lbl] == 2;
    assert Weight(q.labels, path) == Times(q.labels, lbl) * 1;
  }

  lemma EmptyTrail(q: Query)
    ensures IsTrail(q, [])
  {
  }

  lemma {:induction false} FeedUncapped(results: seq<Found>, visits: seq<Option<Found>>, fuel: Option<nat>)
    ensures FeedAll(Running(results, fuel), visits, None) ==
            if fuel.Some? && |visits| > fuel.value then Ended(Err(WorkLimit))
            else Running(results + Rows(visits), if fuel.Some? then Some(fuel.value - |visits|) else None)
    decreases |visits|
  {
    if visits == [] {
      assert results + [] == results;
    } else {
      var init := visits[..|visits| - 1];
      FeedUncapped(results, init, fuel);
      if visits[|visits| - 1].Some? {
        var f := visits[|visits| - 1].value;
        assert (results + Rows(init)) + [f] == results + (Rows(init) + [f]);
      }
    }
  }

  /** Without a result cap: the call fails exactly when the search makes more than `maxWork` edge
      visits, and otherwise it returns every row. */
  lemma WorkCapExact(q: Query, maxWork: nat)
    ensures Expected(q, None, maxWork) ==
            if maxWork > 0 && |Trace(q, [])| > maxWork then Err(WorkLimit) else Ok(AllRows(q))
  {
    hide Trace;
    FeedUncapped(ZeroLength(q), Trace(q, []), if maxWork == 0 then None else Some(maxWork));
  }

  lemma {:induction false} FeedCapped(results: seq<Found>, visits: seq<Option<Found>>, fuel: Option<nat>,
                                      cap: Option<nat>)
    requires !Full(|results|, cap)
    ensures match FeedAll(Running(results, fuel), visits, cap)
            case Running(rs, _) => rs == results + Rows(visits) && !Full(|rs|, cap)
            case Ended(Ok(rs)) => rs == Capped(results + Rows(visits), cap) && Full(|rs|, cap)
            case Ended(Err(e)) => e == WorkLimit && fuel.Some? && |visits| > fuel.value
    ensures fuel.Some? && FeedAll(Running(results, fuel), visits, cap).Running? ==>
              FeedAll(Running(results, fuel), visits, cap).fuel == Some(fuel.value - |visits|) && |visits| <= fuel.value
    ensures fuel.None? && FeedAll(Running(results, fuel), visits, cap).Running? ==>
              FeedAll(Running(results, fuel), visits, cap).fuel == None
    decreases |visits|
  {
    hide Capped;
    if visits == [] {
      assert results + [] == results;
    } else {
      var init := visits[..|visits| - 1];
      FeedCapped(results, init, fuel, cap);
      CapGrows(results + Rows(init), visits[|visits| - 1], cap);
      if visits[|visits| - 1].Some? {
        var f := visits[|visits| - 1].value;
        assert (results + Rows(init)) + [f] == results + (Rows(init) + [f]);
      }
    }
  }

  lemma CapGrows(rs: seq<Found>, visit: Option<Found>, cap: Option<nat>)
    ensures visit.Some? && |Capped(rs, cap)| > 0 && Full(|Capped(rs, cap)|, cap) ==>
              Capped(rs + [visit.value], cap) == Capped(rs, cap)
    ensures visit.Some? && !Full(|rs|, cap) ==> Capped(rs + [visit.value], cap) == rs + [visit.value]
  {
  }

  /** Once it has ended, the feed stays as it is. */
  lemma {:induction false} FeedOver(s: Run, visits: seq<Option<Found>>, cap: Option<nat>)
    requires s.Ended?
    ensures FeedAll(s, visits, cap) == s
    decreases |visits|
  {
    if visits != [] {
      FeedOver(s, visits[..|visits| - 1], cap);
    }
  }

  /** With more visits than fuel the work error comes exactly when the visits paid for do not fill the cap. */
  lemma FeedFails(results: seq<Found>, visits: seq<Option<Found>>, n: nat, cap: Option<nat>)
    requires !Full(|results|, cap) && |visits| > n
    ensures var end := FeedAll(Running(results, Some(n)), visits, cap);
            end.Ended? && (end.outcome.Err? <==> !Full(|results + Rows(visits[..n])|, cap))
  {
    hide Capped, Rows;
    var start, paid := Running(results, Some(n)), visits[..n];
    var mid := FeedAll(start, paid, cap);
    assert visits == paid + visits[n..];
    FeedConcat(start, paid, visits[n..], cap);
    FeedCapped(results, paid, Some(n), cap);
    FullUncut(results + Rows(paid), cap);
    if mid.Ended? {
      FeedOver(mid, visits[n..], cap);
    } else {
      var next := visits[n..n + 1];
      assert visits[n..] == next + visits[n + 1..] && next[..0] == visits[..0];
      FeedConcat(mid, next, visits[n + 1..], cap);
      assert FeedAll(mid, next, cap) == Feed(mid, visits[n], cap);
      FeedOver(Ended(Err(WorkLimit)), visits[n + 1..], cap);
    }
  }

  lemma FullUncut(rows: seq<Found>, cap: Option<nat>)
    ensures Full(|Capped(rows, cap)|, cap) ==> Full(|rows|, cap)
  {
  }

  /** With a result cap the call returns as long a prefix of the uncapped answer as the cap allows, unless the
      work cap ends it first (`WorkErrorExact`). */
  lemma ResultCapPrefix(q: Query, cap: Option<nat>, maxWork: nat)
    ensures match Expected(q, cap, maxWork)
            case Ok(rows) => rows == Capped(AllRows(q), cap)
            case Err(e) => e == WorkLimit && maxWork > 0 && |Trace(q, [])| > maxWork
  {
    hide Trace, Capped;
    if Full(|ZeroLength(q)|, cap) {
      CappedPrefix(ZeroLength(q), Rows(Trace(q, [])), cap);
    } else {
      FeedCapped(ZeroLength(q), Trace(q, []), if maxWork == 0 then None else Some(maxWork), cap);
      NotFullUncut(AllRows(q), cap);
    }
  }

  /** With both caps: the work error comes exactly when the search makes more than `maxWork` visits and the
      first `maxWork` of them do not fill the result cap. */
  lemma WorkErrorExact(q: Query, cap: Option<nat>, maxWork: nat)
    ensures Expected(q, cap, maxWork).Err? <==>
            maxWork > 0 && |Trace(q, [])| > maxWork &&
            !Full(|ZeroLength(q) + Rows(Trace(q, [])[..maxWork])|, cap)
  {
    hide Trace, Capped, Rows, FeedAll;
    var start, visits := ZeroLength(q), Trace(q, []);
    if !Full(|start|, cap) {
      if maxWork > 0 && |visits| > maxWork {
        FeedFails(start, visits, maxWork, cap);
      } else {
        FeedCapped(start, visits, if maxWork == 0 then None else Some(maxWork), cap);
      }
    }
  }

  lemma CappedPrefix(a: seq<Found>, b: seq<Found>, cap: Option<nat>)
    requires Full(|a|, cap) && |a| <= 1
    ensures Capped(a + b, cap) == a
  {
  }

  lemma NotFullUncut(rows: seq<Found>, cap: Option<nat>)
    ensures !Full(|rows|, cap) ==> Capped(rows, cap) == rows
  {
  }
}
