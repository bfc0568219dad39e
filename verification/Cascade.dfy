/** Cascading node deletion (src/storage/node.rs:76-102) and the counter backfill of the schema
    migration (src/schema.rs:157-193). */
module Cascade {
  import opened Prelude
  import opened Bytes
  import opened Kv
  import opened Graph
  import opened Keys
  import opened Db
  import opened Stats
  import opened Edges
  import opened Nodes

  /** The edges at a node, as their source or as their target. */
  function Incident(edges: set<Edge>, id: u64, out: bool): set<Edge> {
    set e | e in edges && Near(e, out) == id
  }

  /** `edges'` is `edges` without some edges at the node. */
  ghost predicate OnlyIncidentGone(edges: map<Edge, Props>, edges': map<Edge, Props>, id: u64, out: bool) {
    (forall e :: e in edges' ==> e in edges && edges'[e] == edges[e]) &&
    (forall e :: e in edges && e !in edges' ==> Near(e, out) == id)
  }

  /** No edge is left from the node along `lbl` to or from `far`. */
  ghost predicate GroupGone(edges: set<Edge>, id: u64, far: u64, lbl: Name, out: bool) {
    forall e :: e in edges && Near(e, out) == id && Far(e, out) == far ==> e.lbl != lbl
  }

  ghost predicate GroupsGone(edges: set<Edge>, id: u64, row: (Name, seq<u64>), out: bool, j: nat)
    requires j <= |row.1|
  {
    forall k :: 0 <= k < j ==> GroupGone(edges, id, row.1[k], row.0, out)
  }

  ghost predicate RowsGone(edges: set<Edge>, id: u64, rows: seq<(Name, seq<u64>)>, out: bool, i: nat)
    requires i <= |rows|
  {
    forall k :: 0 <= k < i ==> GroupsGone(edges, id, rows[k], out, |rows[k].1|)
  }

  lemma GroupDeleted(edges: map<Edge, Props>, edges0: map<Edge, Props>, id: u64, far: u64, lbl: Name, out: bool)
    requires OnlyIncidentGone(edges0, edges, id, out)
    ensures var edges' := edges - Parallel(edges.Keys, if out then id else far, if out then far else id, lbl);
            OnlyIncidentGone(edges0, edges', id, out) && GroupGone(edges'.Keys, id, far, lbl, out) &&
                             edges'.Keys <= edges.Keys
  {
  }

  lemma GoneStaysGone(edges: set<Edge>, edges': set<Edge>, id: u64, rows: seq<(Name, seq<u64>)>, out: bool, i: nat,
                      j: nat)
    requires edges' <= edges && i < |rows| && j <= |rows[i].1|
    requires RowsGone(edges, id, rows, out, i) && GroupsGone(edges, id, rows[i], out, j)
    ensures RowsGone(edges', id, rows, out, i) && GroupsGone(edges', id, rows[i], out, j)
  {
    forall k, m | 0 <= k < i && 0 <= m < |rows[k].1| ensures GroupGone(edges', id, rows[k].1[m], rows[k].0, out) {
      assert GroupsGone(edges, id, rows[k], out, |rows[k].1|);
      assert GroupGone(edges, id, rows[k].1[m], rows[k].0, out);
    }
    forall m | 0 <= m < j ensures GroupGone(edges', id, rows[i].1[m], rows[i].0, out) {
      assert GroupGone(edges, id, rows[i].1[m], rows[i].0, out);
    }
  }

  /** When every listed group is gone, no edge of the node is left. */
  lemma AllGone(edges0: map<Edge, Props>, edges: map<Edge, Props>, id: u64, out: bool)
    requires OnlyIncidentGone(edges0, edges, id, out)
    requires var rows := LabelRows(edges0.Keys, id, out); RowsGone(edges.Keys, id, rows, out, |rows|)
    ensures edges == edges0 - Incident(edges0.Keys, id, out)
  {
    var rows, names := LabelRows(edges0.Keys, id, out), SortedKeys(LabelsAt(edges0.Keys, id, out));
    LabelRowsAre(edges0.Keys, id, out);
    forall e | e in edges0 && Near(e, out) == id ensures e !in edges {
      assert e.lbl in Elems(names);
      var i :| 0 <= i < |names| && names[i] == e.lbl;
      assert Far(e, out) in FarEnds(edges0.Keys, id, e.lbl, out);
      assert Far(e, out) in Elems(rows[i].1);
      var j :| 0 <= j < |rows[i].1| && rows[i].1[j] == Far(e, out);
      assert GroupsGone(edges.Keys, id, rows[i], out, |rows[i].1|);
      assert GroupGone(edges.Keys, id, rows[i].1[j], rows[i].0, out);
    }
    assert edges.Keys == (edges0 - Incident(edges0.Keys, id, out)).Keys;
  }

  lemma RowLabelsNulFree(edges: map<Edge, Props>, id: u64, out: bool)
    requires forall e :: e in edges ==> ValidName(e.lbl)
    ensures var rows := LabelRows(edges.Keys, id, out); forall i :: 0 <= i < |rows| ==> NulFree(rows[i].0)
  {
    var rows, names := LabelRows(edges.Keys, id, out), SortedKeys(LabelsAt(edges.Keys, id, out));
    LabelRowsAre(edges.Keys, id, out);
    forall i | 0 <= i < |rows| ensures NulFree(rows[i].0) {
      assert names[i] in Elems(names);
    }
  }

  /** One of the two delete loops of `delete_node`. */
  method DeleteIncident(conn: Connection, id: u64, out: bool)
    requires conn.EdgesValid()
    modifies conn`adjOut, conn`adjIn, conn`edgeProps, conn`meta, conn`edgeSet
    ensures conn.EdgesValid() && conn.edgeSet == old(conn.edgeSet) - Incident(old(conn.edgeSet).Keys, id, out)
    ensures NextSeq(conn.meta) == NextSeq(old(conn.meta)) && NodeSide(conn.meta) == NodeSide(old(conn.meta))
  {
    hide EdgesOk, OnlyIncidentGone, RowsGone, GroupsGone, NodeSide, NextSeq, LabelRows, Parallel, NulFree, GroupGone;
    ghost var edges0 := conn.edgeSet;
    var rows := GetEdgeLabels(conn, id, out);
    EdgesOkParts(conn.EdgeState(), conn.edgeSet);
    RowLabelsNulFree(conn.edgeSet, id, out);
    NothingGone(edges0, id, out, rows);
    for i := 0 to |rows|
      invariant conn.EdgesValid()
      invariant OnlyIncidentGone(edges0, conn.edgeSet, id, out) && RowsGone(conn.edgeSet.Keys, id, rows, out, i)
      invariant NextSeq(conn.meta) == NextSeq(old(conn.meta)) && NodeSide(conn.meta) == NodeSide(old(conn.meta))
    {
      var (lbl, neighbors) := rows[i];
      NoGroupYet(conn.edgeSet.Keys, id, rows[i], out);
      for j := 0 to |neighbors|
        invariant conn.EdgesValid()
        invariant OnlyIncidentGone(edges0, conn.edgeSet, id, out) && RowsGone(conn.edgeSet.Keys, id, rows, out, i)
        invariant GroupsGone(conn.edgeSet.Keys, id, rows[i], out, j)
        invariant NextSeq(conn.meta) == NextSeq(old(conn.meta)) && NodeSide(conn.meta) == NodeSide(old(conn.meta))
      {
        ghost var before := conn.edgeSet;
        GroupDeleted(before, edges0, id, neighbors[j], lbl, out);
        DeleteEdge(conn, if out then id else neighbors[j], if out then neighbors[j] else id, lbl);
        GoneStaysGone(before.Keys, conn.edgeSet.Keys, id, rows, out, i, j);
        OneMoreGroup(conn.edgeSet.Keys, id, rows[i], out, j);
      }
      OneMoreRow(conn.edgeSet.Keys, id, rows, out, i);
    }
    AllGone(edges0, conn.edgeSet, id, out);
  }

  lemma NothingGone(edges: map<Edge, Props>, id: u64, out: bool, rows: seq<(Name, seq<u64>)>)
    ensures OnlyIncidentGone(edges, edges, id, out) && RowsGone(edges.Keys, id, rows, out, 0)
  {
  }

  lemma NoGroupYet(edges: set<Edge>, id: u64, row: (Name, seq<u64>), out: bool)
    ensures GroupsGone(edges, id, row, out, 0)
  {
  }

  lemma OneMoreGroup(edges: set<Edge>, id: u64, row: (Name, seq<u64>), out: bool, j: nat)
    requires j < |row.1| && GroupsGone(edges, id, row, out, j) && GroupGone(edges, id, row.1[j], row.0, out)
    ensures GroupsGone(edges, id, row, out, j + 1)
  {
  }

  lemma OneMoreRow(edges: set<Edge>, id: u64, rows: seq<(Name, seq<u64>)>, out: bool, i: nat)
    requires i < |rows| && RowsGone(edges, id, rows, out, i) && GroupsGone(edges, id, rows[i], out, |rows[i].1|)
    ensures RowsGone(edges, id, rows, out, i + 1)
  {
  }

  // ---------------------------------------------------------------- the node itself

  /** The label counters after one decrement for each entry of `labels`. */
  ghost function UncountLabels(meta: Meta, labels: seq<Name>): Meta {
    if labels == [] then meta
    else
      var m, l := UncountLabels(meta, labels[..|labels| - 1]), LabelCount(labels[|labels| - 1]);
      SetCounter(m, l, SaturatingSub(Counter(m, l), 1))
  }

  function OneLess(n: nat, less: bool): nat {
    if less && n > 0 then n - 1 else n
  }

  ghost predicate UncountedIs(meta: Meta, nodes: map<u64, NodeRecord>, gone: set<Name>) {
    forall l: Name :: CounterIs(meta, LabelCount(l), OneLess(|NodesWith(nodes, l)|, l in gone))
  }

  lemma {:induction false} UncountLabelsSpec(meta: Meta, nodes: map<u64, NodeRecord>, labels: seq<Name>)
    requires LabelCountsOk(meta, nodes) && NoDup(labels)
    requires forall l :: l in labels ==> NodesWith(nodes, l) != {}
    ensures UncountedIs(UncountLabels(meta, labels), nodes, Elems(labels))
    ensures SameElsewhere(meta, UncountLabels(meta, labels))
    decreases |labels|
  {
    hide NodesWith, SetCounter, Counter;
    if labels == [] {
      forall l: Name ensures CounterIs(meta, LabelCount(l), |NodesWith(nodes, l)|) {
      }
    } else {
      var init, last := labels[..|labels| - 1], labels[|labels| - 1];
      assert labels == init + [last];
      UncountLabelsSpec(meta, nodes, init);
      ElemsConcat(init, [last]);
      ElemsSingle(last);
      assert last !in Elems(init);
      UncountOneMore(meta, UncountLabels(meta, init), nodes, Elems(init), last);
    }
  }

  lemma UncountOneMore(meta: Meta, m: Meta, nodes: map<u64, NodeRecord>, gone: set<Name>, last: Name)
    requires UncountedIs(m, nodes, gone) && last !in gone && NodesWith(nodes, last) != {} && SameElsewhere(meta, m)
    ensures var after := SetCounter(m, LabelCount(last), SaturatingSub(Counter(m, LabelCount(last)), 1));
            UncountedIs(after, nodes, gone + {last}) && SameElsewhere(meta, after)
  {
    hide NodesWith, Counter, Word;
    var after := SetCounter(m, LabelCount(last), SaturatingSub(Counter(m, LabelCount(last)), 1));
    assert CounterIs(m, LabelCount(last), OneLess(|NodesWith(nodes, last)|, false));
    CounterOfIs(m, LabelCount(last), |NodesWith(nodes, last)|);
    forall l: Name ensures CounterIs(after, LabelCount(l), OneLess(|NodesWith(nodes, l)|, l in gone + {last})) {
      assert CounterIs(m, LabelCount(l), OneLess(|NodesWith(nodes, l)|, l in gone));
    }
  }

  lemma CountersAfterDelete(meta: Meta, nodes: map<u64, NodeRecord>, id: u64)
    requires LabelCountsOk(meta, nodes) && RecordsOk(nodes) && id in nodes
    ensures LabelCountsOk(UncountLabels(meta, nodes[id].labels), nodes - {id})
    ensures SameElsewhere(meta, UncountLabels(meta, nodes[id].labels))
  {
    hide CounterIs;
    var labels := nodes[id].labels;
    forall l | l in labels ensures NodesWith(nodes, l) != {} {
      assert id in NodesWith(nodes, l);
    }
    UncountLabelsSpec(meta, nodes, labels);
    forall l: Name
      ensures |NodesWith(nodes - {id}, l)| == OneLess(|NodesWith(nodes, l)|, l in Elems(labels))
    {
      assert NodesWith(nodes - {id}, l) == NodesWith(nodes, l) - {id};
    }
  }

  lemma NodeRowRemoved(t: Table<NodeRow>, nodes: map<u64, NodeRecord>, id: u64)
    requires NodeRowsOk(t, nodes)
    ensures NodeRowsOk(t - {Word(id)}, nodes - {id})
  {
    hide JoinLabels, Word, FromWord;
    var t', nodes' := t - {Word(id)}, nodes - {id};
    WordRoundTrip(id);
    forall i | i in nodes' ensures HasNodeRow(t', i, nodes'[i]) {
      WordRoundTrip(i);
      assert HasNodeRow(t, i, nodes[i]);
    }
    forall k | k in t' ensures NodeKey(k, nodes'.Keys) {
      assert NodeKey(k, nodes.Keys);
      FromWordRoundTrip(k);
    }
  }

  method UncountNode(conn: Connection, labels: seq<Name>)
    modifies conn`meta
    ensures conn.meta == UncountLabels(old(conn.meta), labels)
  {
    hide SetCounter, Counter, SaturatingSub;
    assert labels[..0] == [];
    for i := 0 to |labels|
      invariant conn.meta == UncountLabels(old(conn.meta), labels[..i])
    {
      assert labels[..i + 1][..i] == labels[..i];
      DecrementCountBy(conn, LabelCount(labels[i]), 1);
    }
    assert labels[..|labels|] == labels;
  }

  lemma DeletedNodeMeta(meta: Meta, meta': Meta, nodes: map<u64, NodeRecord>, id: u64, edges: set<Edge>)
    requires SameElsewhere(meta, meta') && IdsOk(meta, nodes) && NumbersOk(meta, edges) && TypeCountsOk(meta, edges)
    ensures IdsOk(meta', nodes - {id}) && NumbersOk(meta', edges) && TypeCountsOk(meta', edges)
    ensures NextSeq(meta') == NextSeq(meta) && NextNode(meta') == NextNode(meta)
  {
    assert NextEdgeSeq in meta' <==> NextEdgeSeq in meta;
    assert NextNodeId in meta' <==> NextNodeId in meta;
    forall l: Name ensures CounterIs(meta', EdgeTypeCount(l), |OfType(edges, l)|) {
      assert CounterIs(meta, EdgeTypeCount(l), |OfType(edges, l)|);
      assert EdgeTypeCount(l) in meta' <==> EdgeTypeCount(l) in meta;
    }
  }

  lemma NodeSideKept(before: Meta, after: Meta, nodes: map<u64, NodeRecord>)
    requires NodeSide(after) == NodeSide(before) && IdsOk(before, nodes) && LabelCountsOk(before, nodes)
    ensures IdsOk(after, nodes) && LabelCountsOk(after, nodes) && NextNode(after) == NextNode(before)
  {
    assert NextNodeId in NodeSide(before) && NodeSide(after)[NextNodeId] == NodeSide(before)[NextNodeId];
    forall l: Name ensures CounterIs(after, LabelCount(l), |NodesWith(nodes, l)|) {
      assert CounterIs(before, LabelCount(l), |NodesWith(nodes, l)|);
      assert LabelCount(l) in NodeSide(after) <==> LabelCount(l) in NodeSide(before);
      if LabelCount(l) in after {
        assert NodeSide(after)[LabelCount(l)] == NodeSide(before)[LabelCount(l)];
      }
    }
  }

  /** `delete_node`: the node goes with exactly the edges incident to it, self-loops and parallel
      edges included; all others stay, with their properties. */
  method DeleteNode(conn: Connection, id: u64) returns (r: Result<()>)
    requires conn.EdgesValid() && conn.NodesValid() && conn.LabelsCounted()
    modifies conn`nodes, conn`adjOut, conn`adjIn, conn`edgeProps, conn`meta, conn`edgeSet, conn`nodeSet
    ensures conn.EdgesValid() && conn.NodesValid() && conn.LabelsCounted()
    ensures r == if id in old(conn.nodeSet) then Ok(()) else Err(NodeNotFound(id))
    ensures r.Err? ==> conn.nodeSet == old(conn.nodeSet) && conn.edgeSet == old(conn.edgeSet)
    ensures r.Ok? ==> conn.nodeSet == old(conn.nodeSet) - {id}
    ensures r.Ok? ==> conn.edgeSet == old(conn.edgeSet) - IncidentEdges(old(conn.edgeSet).Keys, id)
    ensures NextSeq(conn.meta) == NextSeq(old(conn.meta)) && NextNode(conn.meta) == NextNode(old(conn.meta))
  {
    hide EdgeRowsOk, AdjOk, NodeRowsOk, LabelCountsOk, TypeCountsOk, NumbersOk, IdsOk, NodeSide, NextSeq, NextNode,
         Incident, UncountLabels, SameElsewhere;
    var node := GetNode(conn, id);
    if node.Err? {
      return Err(node.error);
    }
    DeleteIncident(conn, id, true);
    DeleteIncident(conn, id, false);
    BothWays(old(conn.edgeSet), id);
    NodeSideKept(old(conn.meta), conn.meta, conn.nodeSet);
    ghost var meta := conn.meta;
    NodeRowRemoved(conn.nodes, conn.nodeSet, id);
    CountersAfterDelete(meta, conn.nodeSet, id);
    conn.nodes := conn.nodes - {Word(id)};
    UncountNode(conn, node.value.labels);
    DeletedNodeMeta(meta, conn.meta, conn.nodeSet, id, conn.edgeSet.Keys);
    conn.nodeSet := conn.nodeSet - {id};
    return Ok(());
  }

  function IncidentEdges(edges: set<Edge>, id: u64): set<Edge> {
    set e | e in edges && (e.src == id || e.dst == id)
  }

  /** `node_has_edges`. */
  method NodeHasEdges(conn: Connection, id: u64) returns (r: bool)
    requires conn.EdgesValid()
    ensures r <==> IncidentEdges(conn.edgeSet.Keys, id) != {}
  {
    hide EdgesOk, LabelRows;
    NoRowsIff(conn.edgeSet.Keys, id, true);
    NoRowsIff(conn.edgeSet.Keys, id, false);
    var out := GetEdgeLabels(conn, id, true);
    if out != [] {
      return true;
    }
    var in_ := GetEdgeLabels(conn, id, false);
    return in_ != [];
  }

  lemma NoRowsIff(edges: set<Edge>, id: u64, out: bool)
    ensures LabelRows(edges, id, out) != [] <==> exists e :: e in IncidentEdges(edges, id) && Near(e, out) == id
  {
    hide SortedKeys, SortedWords;
    var names := SortedKeys(LabelsAt(edges, id, out));
    LabelRowsAre(edges, id, out);
    if names != [] {
      assert names[0] in Elems(names);
    }
    if e :| e in IncidentEdges(edges, id) && Near(e, out) == id {
      assert e.lbl in Elems(names);
    }
  }

  lemma BothWays(edges: map<Edge, Props>, id: u64)
    ensures var once := edges - Incident(edges.Keys, id, true);
            once - Incident(once.Keys, id, false) == edges - IncidentEdges(edges.Keys, id)
  {
    var once := edges - Incident(edges.Keys, id, true);
    assert (once - Incident(once.Keys, id, false)).Keys == (edges - IncidentEdges(edges.Keys, id)).Keys;
  }

  // ---------------------------------------------------------------- counter backfill

  /** How many of the keys belong to an edge of the type, by the label in the raw key. */
  ghost function KeysOfType(keys: set<Key>, lbl: Name): set<Key> {
    set k | k in keys && LabelFromEdgePropsKey(k) == Some(lbl)
  }

  ghost predicate AllLabelled(keys: set<Key>) {
    forall k :: k in keys ==> LabelFromEdgePropsKey(k).Some?
  }

  /** The first half of the migration: counting labels over the raw keys. */
  method CountEdgeKeys(t: Table<Props>) returns (r: Result<map<Name, nat>>)
    ensures r.Err? ==> r.error == MalformedKey && !AllLabelled(t.Keys)
    ensures r.Ok? ==> AllLabelled(t.Keys) && CountsAre(r.value, t.Keys)
  {
    hide LabelFromEdgePropsKey, CountsAre;
    var counts: map<Name, nat>, left := map[], t.Keys;
    NothingCountedYet();
    assert t.Keys - left == {};
    while left != {}
      invariant left <= t.Keys
      invariant CountsAre(counts, t.Keys - left) && AllLabelled(t.Keys - left)
      decreases left
    {
      var key :| key in left;
      match LabelFromEdgePropsKey(key) {
        case None => return Err(MalformedKey);
        case Some(lbl) =>
          CountOneKey(counts, t.Keys - left, key, lbl);
          counts := counts[lbl := (if lbl in counts then counts[lbl] else 0) + 1];
          assert t.Keys - (left - {key}) == t.Keys - left + {key};
          left := left - {key};
      }
    }
    assert t.Keys - left == t.Keys;
    return Ok(counts);
  }

  lemma NothingCountedYet()
    ensures CountsAre(map[], {})
  {
    forall l: Name ensures CountIs(map[], l, |KeysOfType({}, l)|) {
      assert KeysOfType({}, l) == {};
    }
  }

  /** The metadata with a counter row written for each entry of `counts` named in `names`. */
  ghost function WithCounts(meta: Meta, counts: map<Name, nat>, names: set<Name>): Meta {
    map k | k in meta.Keys + (set l | l in names :: EdgeTypeCount(l)) ::
      if k.EdgeTypeCount? && k.lbl in names && k.lbl in counts then Word(counts[k.lbl] % U64_LIMIT)
      else if k in meta then meta[k] else []
  }

  method WriteCounts(conn: Connection, counts: map<Name, nat>)
    modifies conn`meta
    ensures conn.meta == WithCounts(old(conn.meta), counts, counts.Keys)
  {
    hide Word, WithCounts;
    var left := counts.Keys;
    NoCountsYet(conn.meta, counts);
    while left != {}
      invariant left <= counts.Keys
      invariant conn.meta == WithCounts(old(conn.meta), counts, counts.Keys - left)
      decreases left
    {
      var l :| l in left;
      CountWritten(old(conn.meta), counts, counts.Keys - left, l);
      conn.meta := conn.meta[EdgeTypeCount(l) := Word(counts[l] % U64_LIMIT)];
      assert counts.Keys - (left - {l}) == counts.Keys - left + {l};
      left := left - {l};
    }
    assert counts.Keys - left == counts.Keys;
  }

  lemma NoCountsYet(meta: Meta, counts: map<Name, nat>)
    ensures WithCounts(meta, counts, counts.Keys - counts.Keys) == meta
  {
    hide Word;
  }

  lemma CountWritten(meta: Meta, counts: map<Name, nat>, names: set<Name>, l: Name)
    requires l in counts
    ensures WithCounts(meta, counts, names + {l}) ==
            WithCounts(meta, counts, names)[EdgeTypeCount(l) := Word(counts[l] % U64_LIMIT)]
  {
    hide Word;
  }

  /** `migrate_v2_to_v3`: counts edge types from the raw keys of `edge_props` alone. From tables
      whose counters are all missing it establishes the counter invariant; a key without a label
      fails the migration before anything is written. */
  method MigrateV2ToV3(conn: Connection) returns (r: Result<()>)
    modifies conn`meta
    ensures r == if AllLabelled(conn.edgeProps.Keys) then Ok(()) else Err(MalformedKey)
    ensures r.Err? ==> conn.meta == old(conn.meta)
    ensures r.Ok? && |conn.edgeProps| < U64_LIMIT && (forall l: Name :: EdgeTypeCount(l) !in old(conn.meta)) ==>
              forall l: Name :: CounterIs(conn.meta, EdgeTypeCount(l), |KeysOfType(conn.edgeProps.Keys, l)|)
    ensures r.Ok? ==> NodeMetaKept(old(conn.meta), conn.meta) && Counter(conn.meta, SchemaVersion) == 3
  {
    hide LabelFromEdgePropsKey, CountsAre, AllLabelled, KeysOfType, WithCounts, NodeMetaKept, CounterIs;
    var counts := CountEdgeKeys(conn.edgeProps);
    if counts.Err? {
      return Err(counts.error);
    }
    WriteCounts(conn, counts.value);
    conn.meta := conn.meta[SchemaVersion := Word(3)];
    WordRoundTrip(3);
    BackfillKept(old(conn.meta), counts.value);
    if |conn.edgeProps| < U64_LIMIT && forall l: Name :: EdgeTypeCount(l) !in old(conn.meta) {
      forall l: Name ensures CounterIs(conn.meta, EdgeTypeCount(l), |KeysOfType(conn.edgeProps.Keys, l)|) {
        Backfilled(old(conn.meta), counts.value, conn.edgeProps, l);
      }
    }
    return Ok(());
  }

  /** Everything but the edge-type counters and the schema version is as before. */
  ghost predicate NodeMetaKept(before: Meta, after: Meta) {
    forall k: MetaKey :: !k.EdgeTypeCount? && !k.SchemaVersion? ==>
      (k in after <==> k in before) && (k in after ==> after[k] == before[k])
  }

  lemma BackfillKept(meta: Meta, counts: map<Name, nat>)
    ensures NodeMetaKept(meta, WithCounts(meta, counts, counts.Keys)[SchemaVersion := Word(3)])
  {
    hide Word;
  }

  ghost predicate CountIs(counts: map<Name, nat>, lbl: Name, n: nat) {
    if n == 0 then lbl !in counts else lbl in counts && counts[lbl] == n
  }

  ghost predicate CountsAre(counts: map<Name, nat>, keys: set<Key>) {
    forall l: Name :: CountIs(counts, l, |KeysOfType(keys, l)|)
  }

  lemma CountOneKey(counts: map<Name, nat>, keys: set<Key>, key: Key, lbl: Name)
    requires CountsAre(counts, keys) && key !in keys && LabelFromEdgePropsKey(key) == Some(lbl)
    ensures CountsAre(counts[lbl := (if lbl in counts then counts[lbl] else 0) + 1], keys + {key})
  {
    hide LabelFromEdgePropsKey, KeysOfType;
    var counts' := counts[lbl := (if lbl in counts then counts[lbl] else 0) + 1];
    forall l: Name ensures CountIs(counts', l, |KeysOfType(keys + {key}, l)|) {
      assert CountIs(counts, l, |KeysOfType(keys, l)|);
      KeyAdded(keys, key, lbl, l);
    }
  }

  lemma KeyAdded(keys: set<Key>, key: Key, lbl: Name, l: Name)
    requires key !in keys && LabelFromEdgePropsKey(key) == Some(lbl)
    ensures |KeysOfType(keys + {key}, l)| == |KeysOfType(keys, l)| + (if l == lbl then 1 else 0)
  {
    hide LabelFromEdgePropsKey;
    assert KeysOfType(keys + {key}, l) == KeysOfType(keys, l) + (if l == lbl then {key} else {});
  }

  lemma KeysOfTypeSubset(keys: set<Key>, l: Name)
    ensures KeysOfType(keys, l) <= keys
  {
  }

  lemma WithCountsAt(meta: Meta, counts: map<Name, nat>, l: Name)
    requires EdgeTypeCount(l) !in meta
    ensures EdgeTypeCount(l) in WithCounts(meta, counts, counts.Keys) <==> l in counts
    ensures l in counts ==> WithCounts(meta, counts, counts.Keys)[EdgeTypeCount(l)] == Word(counts[l] % U64_LIMIT)
  {
    hide Word;
  }

  lemma Backfilled(meta: Meta, counts: map<Name, nat>, t: Table<Props>, l: Name)
    requires CountsAre(counts, t.Keys) && |t| < U64_LIMIT && EdgeTypeCount(l) !in meta
    ensures CounterIs(WithCounts(meta, counts, counts.Keys)[SchemaVersion := Word(3)], EdgeTypeCount(l),
                      |KeysOfType(t.Keys, l)|)
  {
    hide LabelFromEdgePropsKey, Word, KeysOfType, WithCounts;
    KeysOfTypeSubset(t.Keys, l);
    WithCountsAt(meta, counts, l);
    assert CountIs(counts, l, |KeysOfType(t.Keys, l)|);
    SubsetCardinality(KeysOfType(t.Keys, l), t.Keys);
    assert |t.Keys| == |t|;
  }

  /** On well-formed rows the raw keys of a type are as many as the edges of the type, so the
      backfilled counters are the ones the edge operations keep. */
  lemma BackfillMatchesEdges(t: Table<Props>, edges: map<Edge, Props>, lbl: Name)
    requires EdgeRowsOk(t, edges)
    ensures |KeysOfType(t.Keys, lbl)| == |OfType(edges.Keys, lbl)|
    ensures forall k :: k in t ==> LabelFromEdgePropsKey(k).Some?
  {
    hide EdgeKey, LabelFromEdgePropsKey, EdgeFromKey;
    forall k | k in t
      ensures EdgeFromKey(k).Some? && EdgeFromKey(k).value in edges && EdgeKey(EdgeFromKey(k).value) == k
      ensures LabelFromEdgePropsKey(k) == Some(EdgeFromKey(k).value.lbl)
    {
      assert RowOf(k, edges.Keys);
      EdgeKeyRoundTrip(EdgeFromKey(k).value);
    }
    forall e | e in OfType(edges.Keys, lbl)
      ensures EdgeKey(e) in KeysOfType(t.Keys, lbl) && EdgeFromKey(EdgeKey(e)) == Some(e)
    {
      assert HasRow(t, e, edges[e]);
      EdgeKeyRoundTrip(e);
    }
    KeysAreEdges(OfType(edges.Keys, lbl), KeysOfType(t.Keys, lbl));
  }

  lemma {:induction false} KeysAreEdges(es: set<Edge>, ks: set<Key>)
    requires forall e :: e in es ==> EdgeKey(e) in ks && EdgeFromKey(EdgeKey(e)) == Some(e)
    requires forall k :: k in ks ==>
               EdgeFromKey(k).Some? && EdgeFromKey(k).value in es && EdgeKey(EdgeFromKey(k).value) == k
    ensures |ks| == |es|
    decreases |es|
  {
    hide EdgeKey, EdgeFromKey;
    if es == {} {
      assert forall k :: k !in ks;
      assert ks == {};
    } else {
      var e :| e in es;
      KeysAreEdges(es - {e}, ks - {EdgeKey(e)});
    }
  }
}
