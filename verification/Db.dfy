/** The open database: its tables, and what it means for them to represent a graph. */
module Db {
  import opened Prelude
  import opened Bytes
  import opened Encoding
  import opened Kv
  import opened Graph
  import opened Keys

  /** Keys of the `metadata` table. The text keys of the two counter families carry distinct
      prefixes (src/stats.rs:6, src/stats.rs:64), so a constructor stands for each. */
  datatype MetaKey = NextNodeId | NextEdgeSeq | SchemaVersion | LabelCount(lbl: Name) | EdgeTypeCount(lbl: Name)

  type Meta = map<MetaKey, Key>

  /** A row of `nodes`: the label column beside the record, both written by `put_node`. */
  datatype NodeRow = NodeRow(labelCol: seq<byte>, record: NodeRecord)

  datatype Error =
    | InvalidName
    | NodeNotFound(id: u64)
    | SpaceExhausted
    | SizeLimit
    | InvalidIndexDefinition
    | IndexAlreadyExists
    | IndexNotFound
    | MalformedKey
    | NoSuchTable
    | TableExists
    | WorkLimit
    | StillConnected(id: u64)

  type Result<+T> = Outcome<T, Error>

  // ---------------------------------------------------------------- adjacency tables

  ghost function SortedWords(s: set<u64>): (r: seq<u64>)
    ensures StrictlySorted(r) && Elems(r) == s
  {
    var r: seq<int> := SortedInts(s);
    assert forall i :: 0 <= i < |r| ==> r[i] in Elems(r);
    r
  }

  ghost predicate AdjEntry(t: Table<Key>, key: Key, far: set<u64>) {
    if far == {} then key !in t else key in t && t[key] == IdList(SortedWords(far))
  }

  ghost function SetAdj(t: Table<Key>, key: Key, far: set<u64>): Table<Key> {
    if far == {} then t - {key} else t[key := IdList(SortedWords(far))]
  }

  /** An adjacency table holds, for each node and type, the sorted far ends of its edges, and
      no row where there are none. */
  ghost predicate AdjOk(t: Table<Key>, edges: set<Edge>, out: bool) {
    (forall k :: k in t ==> |k| >= 8) &&
    forall id: u64, lbl: Name :: AdjEntry(t, AdjKey(id, lbl), FarEnds(edges, id, lbl, out))
  }

  /** Changing the row of one (node, type) carries an adjacency table to another edge set. */
  lemma AdjUpdate(t: Table<Key>, edges: set<Edge>, t': Table<Key>, edges': set<Edge>, id: u64, lbl: Name, out: bool)
    requires AdjOk(t, edges, out)
    requires forall i: u64, l: Name :: i != id || l != lbl ==> FarEnds(edges', i, l, out) == FarEnds(edges, i, l, out)
    requires t' == SetAdj(t, AdjKey(id, lbl), FarEnds(edges', id, lbl, out))
    ensures AdjOk(t', edges', out)
  {
    forall i: u64, l: Name ensures AdjEntry(t', AdjKey(i, l), FarEnds(edges', i, l, out)) {
      AdjKeyInjective(i, l, id, lbl);
      assert AdjEntry(t, AdjKey(i, l), FarEnds(edges, i, l, out));
    }
  }

  // ---------------------------------------------------------------- counters

  /** The value of a counter row; 0 when there is none. */
  function Counter(meta: Meta, key: MetaKey): u64 {
    if key in meta && |meta[key]| == 8 then FromWord(meta[key]) else 0
  }

  ghost predicate CounterIs(meta: Meta, key: MetaKey, n: nat) {
    if n == 0 then key !in meta else n < U64_LIMIT && key in meta && meta[key] == Word(n)
  }

  ghost function SetCounter(meta: Meta, key: MetaKey, n: u64): Meta {
    if n == 0 then meta - {key} else meta[key := Word(n)]
  }

  lemma CounterOfIs(meta: Meta, key: MetaKey, n: nat)
    requires CounterIs(meta, key, n)
    ensures n < U64_LIMIT && Counter(meta, key) == n
  {
    if n > 0 {
      WordRoundTrip(n);
    }
  }

  ghost predicate TypeCountsOk(meta: Meta, edges: set<Edge>) {
    forall lbl: Name :: CounterIs(meta, EdgeTypeCount(lbl), |OfType(edges, lbl)|)
  }

  ghost predicate LabelCountsOk(meta: Meta, nodes: map<u64, NodeRecord>) {
    forall lbl: Name :: CounterIs(meta, LabelCount(lbl), |NodesWith(nodes, lbl)|)
  }

  /** The next edge sequence number; a missing row counts as 0 (src/id.rs:52-61). */
  function NextSeq(meta: Meta): u64 {
    Counter(meta, NextEdgeSeq)
  }

  // ---------------------------------------------------------------- edge tables

  ghost predicate HasRow(t: Table<Props>, e: Edge, props: Props) {
    EdgeKey(e) in t && t[EdgeKey(e)] == props
  }

  /** `k` is the key of an edge of the set, and decodes to it. */
  ghost predicate RowOf(k: Key, edges: set<Edge>) {
    match EdgeFromKey(k)
    case None => false
    case Some(e) => e in edges && EdgeKey(e) == k
  }

  ghost predicate EdgeRowsOk(t: Table<Props>, edges: map<Edge, Props>) {
    (forall e :: e in edges ==> ValidName(e.lbl)) &&
    (forall e :: e in edges ==> HasRow(t, e, edges[e])) &&
    (forall k :: k in t ==> RowOf(k, edges.Keys))
  }

  /** The tables that edge operations read and write. */
  datatype EdgeTables = EdgeTables(out: Table<Key>, in_: Table<Key>, rows: Table<Props>, meta: Meta)

  /** The edge tables and counters represent the edge set `edges`. */
  ghost predicate EdgesOk(t: EdgeTables, edges: map<Edge, Props>) {
    && EdgeRowsOk(t.rows, edges)
    && AdjOk(t.out, edges.Keys, true)
    && AdjOk(t.in_, edges.Keys, false)
    && NumbersOk(t.meta, edges.Keys)
    && TypeCountsOk(t.meta, edges.Keys)
  }

  /** Every edge has a sequence number of its own, below the counter. */
  ghost predicate NumbersOk(meta: Meta, edges: set<Edge>) {
    && SeqsUnique(edges)
    && SeqsBelow(edges, NextSeq(meta))
    && (NextEdgeSeq in meta ==> |meta[NextEdgeSeq]| == 8)
  }

  /** The byte rows determine the graph: no two edge sets have the same `edge_props` table. */
  lemma EdgesDetermined(t: Table<Props>, a: map<Edge, Props>, b: map<Edge, Props>)
    requires EdgeRowsOk(t, a) && EdgeRowsOk(t, b)
    ensures a == b
  {
    forall e | e in a ensures e in b && a[e] == b[e] {
      SameRow(t, a, b, e);
    }
    forall e | e in b ensures e in a {
      SameRow(t, b, a, e);
    }
  }

  lemma SameRow(t: Table<Props>, a: map<Edge, Props>, b: map<Edge, Props>, e: Edge)
    requires EdgeRowsOk(t, a) && EdgeRowsOk(t, b) && e in a
    ensures e in b && a[e] == b[e]
  {
    assert HasRow(t, e, a[e]) && RowOf(EdgeKey(e), b.Keys);
    EdgeKeyRoundTrip(e);
    assert HasRow(t, e, b[e]);
  }

  /** The graph determines the bytes: both adjacency tables are functions of the edge set. */
  lemma AdjacencyDetermined(t: Table<Key>, u: Table<Key>, edges: set<Edge>, out: bool)
    requires AdjOk(t, edges, out) && AdjOk(u, edges, out)
    ensures t == u
  {
    forall k | k in t.Keys + u.Keys ensures k in t && k in u && t[k] == u[k] {
      var id, lbl := AdjId(k), AdjLabel(k);
      FromWordRoundTrip(k[..8]);
      assert k == k[..8] + k[8..];
      assert k == AdjKey(id, lbl);
      assert AdjEntry(t, AdjKey(id, lbl), FarEnds(edges, id, lbl, out));
      assert AdjEntry(u, AdjKey(id, lbl), FarEnds(edges, id, lbl, out));
    }
  }

  // ---------------------------------------------------------------- node table

  /** Labels joined by `:`, as `put_node` stores them in the label column. */
  function JoinLabels(labels: seq<Name>): seq<byte> {
    if labels == [] then []
    else if |labels| == 1 then labels[0]
    else labels[0] + [58] + JoinLabels(labels[1..])
  }

  ghost predicate HasNodeRow(t: Table<NodeRow>, id: u64, record: NodeRecord) {
    Word(id) in t && t[Word(id)] == NodeRow(JoinLabels(record.labels), record)
  }

  ghost predicate NodeKey(k: Key, ids: set<u64>) {
    |k| == 8 && FromWord(k) in ids
  }

  ghost predicate NodeRowsOk(t: Table<NodeRow>, nodes: map<u64, NodeRecord>) {
    (forall id :: id in nodes ==> HasNodeRow(t, id, nodes[id])) &&
    (forall k :: k in t ==> NodeKey(k, nodes.Keys))
  }

  function NextNode(meta: Meta): u64 {
    Counter(meta, NextNodeId)
  }

  /** Ids are handed out by the counter. */
  ghost predicate IdsOk(meta: Meta, nodes: map<u64, NodeRecord>) {
    && NextNodeId in meta && |meta[NextNodeId]| == 8
    && forall id :: id in nodes ==> id < NextNode(meta)
  }

  /** No record lists a label twice. */
  ghost predicate RecordsOk(nodes: map<u64, NodeRecord>) {
    forall id :: id in nodes ==> NoDup(nodes[id].labels)
  }

  /** The node table determines the nodes. */
  lemma NodesDetermined(t: Table<NodeRow>, a: map<u64, NodeRecord>, b: map<u64, NodeRecord>)
    requires NodeRowsOk(t, a) && NodeRowsOk(t, b)
    ensures a == b
  {
    hide NodeRowsOk;
    forall id | id in a ensures id in b && a[id] == b[id] {
      SameNodeRow(t, a, b, id);
    }
    forall id | id in b ensures id in a {
      SameNodeRow(t, b, a, id);
    }
  }

  lemma SameNodeRow(t: Table<NodeRow>, a: map<u64, NodeRecord>, b: map<u64, NodeRecord>, id: u64)
    requires NodeRowsOk(t, a) && NodeRowsOk(t, b) && id in a
    ensures id in b && a[id] == b[id]
  {
    hide JoinLabels;
    assert HasNodeRow(t, id, a[id]) && NodeKey(Word(id), b.Keys);
    WordRoundTrip(id);
    assert HasNodeRow(t, id, b[id]);
  }

  // ---------------------------------------------------------------- connection

  /** What an index covers: one label, and properties in column order. */
  datatype IndexDef = IndexDef(lbl: Name, props: seq<Name>)

  class Connection {
    var nodes: Table<NodeRow>
    var adjOut: Table<Key>
    var adjIn: Table<Key>
    var edgeProps: Table<Props>
    var meta: Meta
    /** Index tables by name; their rows have empty values, so a table is its set of keys. */
    var indexTables: map<Name, set<Key>>

    /** MessagePack serialization of a property value. */
    const encode: Value -> Key

    ghost var edgeSet: map<Edge, Props>
    ghost var nodeSet: map<u64, NodeRecord>
    ghost var indexSet: set<IndexDef>

    ghost predicate NodesValid()
      reads this`nodes, this`nodeSet, this`meta
    {
      NodeRowsOk(nodes, nodeSet) && IdsOk(meta, nodeSet) && RecordsOk(nodeSet)
    }

    ghost predicate LabelsCounted()
      reads this`nodeSet, this`meta
    {
      LabelCountsOk(meta, nodeSet)
    }

    ghost function EdgeState(): EdgeTables
      reads this`adjOut, this`adjIn, this`edgeProps, this`meta
    {
      EdgeTables(adjOut, adjIn, edgeProps, meta)
    }

    ghost predicate EdgesValid()
      reads this`adjOut, this`adjIn, this`edgeProps, this`meta, this`edgeSet
    {
      EdgesOk(EdgeState(), edgeSet)
    }
  }
}
