/** Write transactions (src/transaction.rs:247-413): storage, counters and indexes composed, and
    run as a unit. */
module Transaction {
  import opened Prelude
  import opened Bytes
  import opened Kv
  import opened Graph
  import opened Keys
  import opened Db
  import opened Edges
  import opened Nodes
  import opened Cascade
  import opened Index
  import opened IndexStore
  import opened Runs

  /** Everything but the label counters and node ids kept: the edge side still holds. */
  lemma EdgeSideKept(t: EdgeTables, meta': Meta, edges: map<Edge, Props>)
    requires EdgesOk(t, edges) && EdgeSide(meta') == EdgeSide(t.meta)
    ensures EdgesOk(t.(meta := meta'), edges) && NextSeq(meta') == NextSeq(t.meta)
  {
    hide AdjOk, EdgeRowsOk;
    var meta := t.meta;
    EdgeKeysKept(meta, meta');
    forall l: Name ensures CounterIs(meta', EdgeTypeCount(l), |OfType(edges.Keys, l)|) {
      assert CounterIs(meta, EdgeTypeCount(l), |OfType(edges.Keys, l)|);
    }
  }

  lemma EdgeKeysKept(meta: Meta, meta': Meta)
    requires EdgeSide(meta') == EdgeSide(meta)
    ensures forall k: MetaKey :: k.EdgeTypeCount? || k.NextEdgeSeq? ==>
              (k in meta' <==> k in meta) && (k in meta ==> meta'[k] == meta[k])
  {
    forall k: MetaKey | k.EdgeTypeCount? || k.NextEdgeSeq?
      ensures (k in meta' <==> k in meta) && (k in meta ==> meta'[k] == meta[k])
    {
      assert k in EdgeSide(meta') <==> k in meta';
      assert k in EdgeSide(meta) <==> k in meta;
      if k in meta {
        assert EdgeSide(meta')[k] == EdgeSide(meta)[k];
      }
    }
  }

  /** The outcome of one operation against the graph it stands for: the same errors, the same
      answer, the same graph, and tables that still represent it exactly when the operation is
      `Safe`. A failed operation leaves all as it was, but for an edge number that has run out:
      the lists are written before the number is drawn. */
  ghost predicate Follows(lim: Limits, s: GraphState, op: Op, s': GraphState, r: Result<Reply>, valid: bool) {
    match Step(lim, s, op)
    case Err(e) => r == Err(e) && s' == s && (valid || ((op.NewEdge? || op.MakeEdge?) && e == SpaceExhausted))
    case Ok((t, reply)) => r == Ok(reply) && s' == t && (valid <==> Safe(s, op))
  }

  // ---------------------------------------------------------------- tables and the graph

  /** All tables of the database. */
  datatype Image = Image(
    nodes: Table<NodeRow>,
    adjOut: Table<Key>,
    adjIn: Table<Key>,
    edgeProps: Table<Props>,
    meta: Meta,
    indexTables: Tables)

  /** The tables represent the graph. */
  ghost predicate Represents(t: Image, encode: Value -> Key, s: GraphState) {
    && EdgesOk(EdgeTables(t.adjOut, t.adjIn, t.edgeProps, t.meta), s.edges)
    && NodeRowsOk(t.nodes, s.nodes) && IdsOk(t.meta, s.nodes) && RecordsOk(s.nodes)
    && LabelCountsOk(t.meta, s.nodes)
    && IndexesOk(t.indexTables, encode, s.nodes, s.indexes)
    && s.nextNode == NextNode(t.meta) && s.nextSeq == NextSeq(t.meta)
    && Closed(s)
  }

  lemma CountersShown(t: Image, encode: Value -> Key, s: GraphState)
    requires Represents(t, encode, s)
    ensures s.nextNode == NextNode(t.meta) && s.nextSeq == NextSeq(t.meta)
  {
  }

  /** Tables represent one graph at most: nothing in them can be read two ways. */
  lemma GraphDetermined(t: Image, encode: Value -> Key, a: GraphState, b: GraphState)
    requires Represents(t, encode, a) && Represents(t, encode, b)
    ensures a == b
  {
    hide EdgeRowsOk, AdjOk, NumbersOk, TypeCountsOk, NodeRowsOk, IdsOk, RecordsOk, LabelCountsOk, IndexesOk,
         NextNode, NextSeq, Closed;
    EdgesDetermined(t.edgeProps, a.edges, b.edges);
    NodesDetermined(t.nodes, a.nodes, b.nodes);
    IndexesWithin(t.indexTables, encode, a.nodes, a.indexes, b.indexes);
    IndexesWithin(t.indexTables, encode, a.nodes, b.indexes, a.indexes);
  }

  lemma IndexesWithin(tables: Tables, encode: Value -> Key, nodes: map<u64, NodeRecord>, a: set<IndexDef>,
                      b: set<IndexDef>)
    requires IndexesOk(tables, encode, nodes, a) && IndexesOk(tables, encode, nodes, b)
    ensures a <= b
  {
    hide IndexesOk, DefOk;
    forall d | d in a ensures d in b {
      assert DefOk(d) by { IndexDefsOk(tables, encode, nodes, a); }
      NameTaken(tables, encode, nodes, a, d);
      NameTaken(tables, encode, nodes, b, d);
    }
  }

  lemma IndexDefsOk(tables: Tables, encode: Value -> Key, nodes: map<u64, NodeRecord>, defs: set<IndexDef>)
    requires IndexesOk(tables, encode, nodes, defs)
    ensures forall d :: d in defs ==> DefOk(d)
  {
    hide DefOk, TableName, DefOfName, NameOk;
    forall d | d in defs ensures DefOk(d) {
      assert HoldsIndex(tables, encode, nodes, d);
    }
  }

  /** And a graph has one representation: every byte of the node, adjacency, edge and index tables
      and every counter row follow from it, whatever the run that led there. Only the row of the next
      edge number may be missing where it would hold 0. */
  lemma TablesDetermined(t: Image, u: Image, encode: Value -> Key, s: GraphState)
    requires Represents(t, encode, s) && Represents(u, encode, s)
    ensures t.(meta := u.meta) == u
    ensures forall k: MetaKey :: k.LabelCount? || k.EdgeTypeCount? || k.NextNodeId? ==>
              (k in t.meta <==> k in u.meta) && (k in t.meta ==> t.meta[k] == u.meta[k])
    ensures NextEdgeSeq in t.meta && NextEdgeSeq in u.meta ==> t.meta[NextEdgeSeq] == u.meta[NextEdgeSeq]
    ensures NextEdgeSeq !in t.meta || NextEdgeSeq !in u.meta ==> s.nextSeq == 0
  {
    hide EdgeRowsOk, AdjOk, NodeRowsOk, RecordsOk, IndexesOk, Closed, Word, FromWord, NodesWith, OfType, SeqsUnique,
         SeqsBelow;
    SeqRow(t.meta, s.nextSeq);
    SeqRow(u.meta, s.nextSeq);
    AdjacencyDetermined(t.adjOut, u.adjOut, s.edges.Keys, true);
    AdjacencyDetermined(t.adjIn, u.adjIn, s.edges.Keys, false);
    EdgeRowsDetermined(t.edgeProps, u.edgeProps, s.edges);
    EdgeRowsDetermined(u.edgeProps, t.edgeProps, s.edges);
    NodeRowsDetermined(t.nodes, u.nodes, s.nodes);
    NodeRowsDetermined(u.nodes, t.nodes, s.nodes);
    IndexTablesDetermined(t.indexTables, u.indexTables, encode, s.nodes, s.indexes);
    IndexTablesDetermined(u.indexTables, t.indexTables, encode, s.nodes, s.indexes);
    forall k: MetaKey | k.LabelCount? || k.EdgeTypeCount? || k.NextNodeId?
      ensures (k in t.meta <==> k in u.meta) && (k in t.meta ==> t.meta[k] == u.meta[k])
    {
      match k {
        case LabelCount(l) => assert CounterIs(t.meta, k, |NodesWith(s.nodes, l)|) &&
            CounterIs(u.meta, k, |NodesWith(s.nodes, l)|);
        case EdgeTypeCount(l) => assert CounterIs(t.meta, k, |OfType(s.edges.Keys, l)|) &&
            CounterIs(u.meta, k, |OfType(s.edges.Keys, l)|);
        case NextNodeId => FromWordRoundTrip(t.meta[k]); FromWordRoundTrip(u.meta[k]);
      }
    }
  }

  lemma SeqRow(meta: Meta, n: u64)
    requires NextSeq(meta) == n && (NextEdgeSeq in meta ==> |meta[NextEdgeSeq]| == 8)
    ensures if NextEdgeSeq in meta then meta[NextEdgeSeq] == Word(n) else n == 0
  {
    if NextEdgeSeq in meta {
      FromWordRoundTrip(meta[NextEdgeSeq]);
    }
  }

  lemma EdgeRowsDetermined(t: Table<Props>, u: Table<Props>, edges: map<Edge, Props>)
    requires EdgeRowsOk(t, edges) && EdgeRowsOk(u, edges)
    ensures forall k :: k in t ==> k in u && u[k] == t[k]
  {
    hide EdgeKey, EdgeFromKey;
    forall k | k in t ensures k in u && u[k] == t[k] {
      assert RowOf(k, edges.Keys);
      var e := EdgeFromKey(k).value;
      assert HasRow(t, e, edges[e]) && HasRow(u, e, edges[e]);
    }
  }

  lemma NodeRowsDetermined(t: Table<NodeRow>, u: Table<NodeRow>, nodes: map<u64, NodeRecord>)
    requires NodeRowsOk(t, nodes) && NodeRowsOk(u, nodes)
    ensures forall k :: k in t ==> k in u && u[k] == t[k]
  {
    hide JoinLabels, Word, FromWord;
    forall k | k in t ensures k in u && u[k] == t[k] {
      assert NodeKey(k, nodes.Keys);
      FromWordRoundTrip(k);
      var id := FromWord(k);
      assert HasNodeRow(t, id, nodes[id]) && HasNodeRow(u, id, nodes[id]);
    }
  }

  lemma IndexTablesDetermined(t: Tables, u: Tables, encode: Value -> Key, nodes: map<u64, NodeRecord>,
                              defs: set<IndexDef>)
    requires IndexesOk(t, encode, nodes, defs) && IndexesOk(u, encode, nodes, defs)
    ensures forall name :: name in t ==> name in u && u[name] == t[name]
  {
    hide DefOfName, TableName, DefOk, IndexKeys;
    forall name | name in t ensures name in u && u[name] == t[name] {
      assert NameOk(name) && DefOfName(name) in defs;
      assert HoldsIndex(t, encode, nodes, DefOfName(name)) && HoldsIndex(u, encode, nodes, DefOfName(name));
    }
  }

  /** `init_schema` on a new file represents the empty graph. */
  lemma EmptyDatabase(encode: Value -> Key)
    ensures Represents(Image(map[], map[], map[], map[],
            map[SchemaVersion := Word(3), NextNodeId := Word(1), NextEdgeSeq := Word(0)], map[]),
                       encode, GraphState(map[], map[], {}, 1, 0))
  {
    hide Word, FromWord;
    var meta: Meta := map[SchemaVersion := Word(3), NextNodeId := Word(1), NextEdgeSeq := Word(0)];
    WordRoundTrip(1);
    WordRoundTrip(0);
    forall l: Name ensures OfType({}, l) == {} && NodesWith(map[], l) == {} {
    }
    forall id: u64, l: Name, out: bool ensures FarEnds({}, id, l, out) == {} {
    }
    assert AdjOk(map[], {}, true) && AdjOk(map[], {}, false);
  }

  // ---------------------------------------------------------------- the transaction

  function Answer(r: Result<()>): Result<Reply> {
    if r.Ok? then Ok(Done) else Err(r.error)
  }

  class WriteTransaction {
    const conn: Connection
    const limits: Limits

    constructor (conn: Connection, limits: Limits)
      ensures this.conn == conn && this.limits == limits
    {
      this.conn := conn;
      this.limits := limits;
    }

    ghost function State(): GraphState
      reads conn
    {
      GraphState(conn.nodeSet, conn.edgeSet, conn.indexSet, NextNode(conn.meta), NextSeq(conn.meta))
    }

    function Stored(): Image
      reads conn
    {
      Image(conn.nodes, conn.adjOut, conn.adjIn, conn.edgeProps, conn.meta, conn.indexTables)
    }

    ghost predicate Valid()
      reads conn
    {
      Represents(Stored(), conn.encode, State())
    }

    /** `create_node_with_labels`. */
    method CreateNodeWithLabels(labels: seq<Name>, props: Props) returns (r: Result<u64>)
      requires Valid() && Callable(State(), NewNode(labels, props))
      modifies conn
      ensures Follows(limits, old(State()), NewNode(labels, props), State(),
                      if r.Ok? then Ok(Created(r.value)) else Err(r.error), Valid())
    {
      hide Represents, NodeMade, FitsLimits, NoDup;
      if !FitsLimits(limits, PrimaryLabel(labels), props) {
        return Err(SizeLimit);
      }
      r := QueryCreateNode(labels, props);
    }

    /** `delete_node`. */
    method DeleteNode(id: u64) returns (r: Result<()>)
      requires Valid()
      modifies conn
      ensures Follows(limits, old(State()), DropNode(id), State(), Answer(r), Valid())
    {
      hide EdgesOk, NodeRowsOk, IdsOk, RecordsOk, LabelCountsOk, IndexesOk, NextSeq, NextNode, TouchTables, Elems,
           NamesOk, Closed, IncidentEdges;
      ghost var state := State();
      var node := GetNode(conn, id);
      if node.Err? {
        return Err(node.error);
      }
      IndexNamesOk(conn.indexTables, conn.encode, conn.nodeSet, conn.indexSet);
      RemoveIndexesForNode(conn, id, node.value.labels, node.value.props);
      IndexesAfterDelete(old(conn.indexTables), conn.encode, old(conn.nodeSet), conn.indexSet, id);
      r := Cascade.DeleteNode(conn, id);
      StepClosed(limits, state, DropNode(id));
    }

    /** `set_node_property`. The record drops the key for a Null; the properties handed to index
        maintenance hold the Null. */
    method SetNodeProperty(id: u64, key: Name, value: Value) returns (r: Result<()>)
      requires Valid()
      modifies conn
      ensures Follows(limits, old(State()), PutProperty(id, key, value), State(), Answer(r), Valid())
    {
      hide Represents, PropertyPut, FitsLimits, NullHarmless;
      if !FitsLimits(limits, [95], map[key := value]) {
        return Err(SizeLimit);
      }
      r := MergeSetProperty(id, key, value);
    }

    /** `remove_node_property`. */
    method RemoveNodeProperty(id: u64, key: Name) returns (r: Result<()>)
      requires Valid()
      modifies conn
      ensures Follows(limits, old(State()), CutProperty(id, key), State(), Answer(r), Valid())
    {
      hide EdgesOk, NodeRowsOk, IdsOk, RecordsOk, LabelCountsOk, IndexesOk, NextSeq, NextNode, TouchTables, Elems,
           NamesOk, Closed, Entry;
      ghost var state := State();
      var node := GetNode(conn, id);
      if node.Err? {
        return Err(node.error);
      }
      r := Nodes.RemoveNodeProperty(conn, id, key);
      IndexNamesOk(conn.indexTables, conn.encode, old(conn.nodeSet), conn.indexSet);
      UpdateIndexesForNode(conn, id, node.value.labels, Some(node.value.props), node.value.props - {key});
      IndexesAfterChange(old(conn.indexTables), conn.encode, old(conn.nodeSet), conn.indexSet, id,
                         node.value.props - {key}, node.value.props - {key});
      StepClosed(limits, state, CutProperty(id, key));
    }

    /** `create_edge`: only between nodes that exist. */
    method CreateEdge(src: u64, dst: u64, lbl: Name, props: Props) returns (r: Result<()>)
      requires Valid()
      modifies conn
      ensures Follows(limits, old(State()), NewEdge(src, dst, lbl, props), State(), Answer(r), Valid())
    {
      hide EdgesOk, NodeRowsOk, IdsOk, RecordsOk, LabelCountsOk, IndexesOk, NextSeq, NextNode, Closed, FitsLimits,
           EdgeMade;
      if !FitsLimits(limits, lbl, props) {
        return Err(SizeLimit);
      }
      // Both ends must be there.
      var found := NodeExists(conn, src);
      if !found {
        return Err(NodeNotFound(src));
      }
      found := NodeExists(conn, dst);
      if !found {
        return Err(NodeNotFound(dst));
      }
      r := QueryCreateEdge(src, dst, lbl, props);
    }

    /** `delete_edge`: all parallel edges of the type. */
    method DeleteEdge(src: u64, dst: u64, lbl: Name) returns (r: Result<()>)
      requires Valid()
      modifies conn
      ensures Follows(limits, old(State()), DropEdges(src, dst, lbl), State(), Answer(r), Valid())
    {
      hide EdgesOk, NodeRowsOk, IdsOk, RecordsOk, LabelCountsOk, IndexesOk, NextSeq, NextNode, Closed, NodeSide,
           Parallel, NulFree, ScanClean, NoStrayRows;
      ghost var state := State();
      CleanIff(conn.EdgeState(), state, src, dst, lbl);
      Edges.DeleteEdge(conn, src, dst, lbl);
      NodeSideKept(old(conn.meta), conn.meta, conn.nodeSet);
      StepClosed(limits, state, DropEdges(src, dst, lbl));
      return Ok(());
    }

    /** `create_composite_index`, and `create_index` for one property. */
    method CreateIndex(d: IndexDef) returns (r: Result<()>)
      requires Valid()
      modifies conn
      ensures Follows(limits, old(State()), NewIndex(d), State(), Answer(r), Valid())
    {
      hide EdgesOk, NodeRowsOk, IdsOk, RecordsOk, LabelCountsOk, IndexesOk, CheckDef, ScanAgrees;
      r := CreateCompositeIndex(conn, d);
    }

    /** `drop_composite_index`, and `drop_index` for one property. */
    method DropIndex(d: IndexDef) returns (r: Result<()>)
      requires Valid()
      modifies conn
      ensures Follows(limits, old(State()), Op.DropIndex(d), State(), Answer(r), Valid())
    {
      hide EdgesOk, NodeRowsOk, IdsOk, RecordsOk, LabelCountsOk, IndexesOk, CheckDef;
      r := DropCompositeIndex(conn, d);
    }

    // -------------------------------------------------------------- further writes of the query language

    /** The node that CREATE and MERGE make. */
    method QueryCreateNode(labels: seq<Name>, props: Props) returns (r: Result<u64>)
      requires Valid() && Callable(State(), MakeNode(labels, props))
      modifies conn
      ensures Follows(limits, old(State()), MakeNode(labels, props), State(),
                      if r.Ok? then Ok(Created(r.value)) else Err(r.error), Valid())
    {
      hide EdgesOk, NodeRowsOk, IdsOk, RecordsOk, LabelCountsOk, IndexesOk, FitsLimits, ValidName, ValidKeys,
           NextSeq, NextNode, EdgeSide, TouchTables, Elems, NamesOk, Closed, NoDup, SortNames;
      ghost var before, state := conn.EdgeState(), State();
      var id := CreateNode(conn, labels, props);
      if id.Err? {
        return Err(id.error);
      }
      IndexNamesOk(conn.indexTables, conn.encode, old(conn.nodeSet), conn.indexSet);
      UpdateIndexesForNode(conn, id.value, labels, None, props);
      EdgeSideKept(before, conn.meta, conn.edgeSet);
      SortNamesPermutes(labels);
      SameElems(labels, SortNames(labels));
      IndexesAfterCreate(old(conn.indexTables), conn.encode, old(conn.nodeSet), conn.indexSet, id.value,
                         NodeRecord(SortNames(labels), props), Elems(labels));
      StepClosed(limits, state, MakeNode(labels, props));
      return Ok(id.value);
    }

    /** The relationship that CREATE and MERGE make: nobody asks whether its ends are still there. */
    method QueryCreateEdge(src: u64, dst: u64, lbl: Name, props: Props) returns (r: Result<()>)
      requires Valid()
      modifies conn
      ensures Follows(limits, old(State()), MakeEdge(src, dst, lbl, props), State(), Answer(r), Valid())
    {
      hide EdgesOk, NodeRowsOk, IdsOk, RecordsOk, LabelCountsOk, IndexesOk, NextSeq, NextNode, Closed,
           ValidName, ValidKeys, NodeSide, Parallel;
      ghost var state := State();
      r := Edges.CreateEdge(conn, src, dst, lbl, props);
      NodeSideKept(old(conn.meta), conn.meta, conn.nodeSet);
      if r.Ok? {
        StepClosed(limits, state, MakeEdge(src, dst, lbl, props));
      }
    }

    /** DELETE of one node. A node that is gone already is passed over. */
    method QueryDeleteNode(id: u64, detach: bool) returns (r: Result<()>)
      requires Valid()
      modifies conn
      ensures Follows(limits, old(State()), EraseNode(id, detach), State(), Answer(r), Valid())
      ensures r == Err(StillConnected(id)) <==>
              !detach && HasRelationship(old(conn.edgeSet), id)
      ensures !detach ==> conn.edgeSet == old(conn.edgeSet)
    {
      hide EdgesOk, NodeRowsOk, IdsOk, RecordsOk, LabelCountsOk, IndexesOk, NextSeq, NextNode, Closed, IncidentEdges,
           HasRelationship;
      ghost var state := State();
      var connected := false;
      if !detach {
        connected := NodeHasEdges(conn, id);
      }
      if connected {
        r := Err(StillConnected(id));
      } else {
        var node := GetNode(conn, id);
        if node.Ok? {
          r := DeleteNode(id);
        }
        r := Ok(());
      }
      DeleteFollows(limits, state, id, detach, State(), Answer(r), Valid());
    }

    /** SET of a property of a node: the indexes are told of a property that is gone. */
    method QuerySetProperty(id: u64, key: Name, value: Value) returns (r: Result<()>)
      requires Valid()
      modifies conn
      ensures Follows(limits, old(State()), AssignProperty(id, key, value), State(), Answer(r), Valid())
    {
      hide EdgesOk, NodeRowsOk, IdsOk, RecordsOk, LabelCountsOk, IndexesOk, NextSeq, NextNode, TouchTables, Elems,
           NamesOk, Closed, ValidName, WithProperty, Entry;
      ghost var state := State();
      var node := GetNode(conn, id);
      if node.Err? {
        return Err(node.error);
      }
      r := Nodes.SetNodeProperty(conn, id, key, value);
      if r.Err? {
        return;
      }
      var told := WithProperty(node.value.props, key, value);
      IndexNamesOk(conn.indexTables, conn.encode, old(conn.nodeSet), conn.indexSet);
      UpdateIndexesForNode(conn, id, node.value.labels, Some(node.value.props), told);
      IndexesAfterChange(old(conn.indexTables), conn.encode, old(conn.nodeSet), conn.indexSet, id, told, told);
      StepClosed(limits, state, AssignProperty(id, key, value));
    }

    /** SET of a property of a node within MERGE: the properties handed to index maintenance hold a Null that
        the record does not. */
    method MergeSetProperty(id: u64, key: Name, value: Value) returns (r: Result<()>)
      requires Valid()
      modifies conn
      ensures Follows(limits, old(State()), MergeProperty(id, key, value), State(), Answer(r), Valid())
    {
      hide EdgesOk, NodeRowsOk, IdsOk, RecordsOk, LabelCountsOk, IndexesOk, NextSeq, NextNode, TouchTables, Elems,
           NamesOk, Closed, ValidName, NullWouldBeIndexed, WithProperty;
      ghost var state := State();
      var node := GetNode(conn, id);
      if node.Err? {
        return Err(node.error);
      }
      r := Nodes.SetNodeProperty(conn, id, key, value);
      if r.Err? {
        return;
      }
      IndexNamesOk(conn.indexTables, conn.encode, old(conn.nodeSet), conn.indexSet);
      UpdateIndexesForNode(conn, id, node.value.labels, Some(node.value.props), node.value.props[key := value]);
      SetPropertyIndexes(old(conn.indexTables), conn.encode, old(conn.nodeSet), conn.indexSet, id, key, value);
      StepClosed(limits, state, MergeProperty(id, key, value));
    }

    /** DELETE of one relationship. */
    method DeleteSingleEdge(e: Edge) returns (r: Result<()>)
      requires Valid()
      modifies conn
      ensures Follows(limits, old(State()), DropEdge(e), State(), Answer(r), Valid())
    {
      hide EdgesOk, NodeRowsOk, IdsOk, RecordsOk, LabelCountsOk, IndexesOk, NextSeq, NextNode, Closed, NodeSide;
      ghost var state := State();
      Edges.DeleteSingleEdge(conn, e.src, e.dst, e.lbl, e.num);
      assert Edge(e.src, e.dst, e.lbl, e.num) == e;
      NodeSideKept(old(conn.meta), conn.meta, conn.nodeSet);
      StepClosed(limits, state, DropEdge(e));
      return Ok(());
    }

    /** SET and REMOVE of a property of one relationship. */
    method SetEdgeProperty(e: Edge, key: Name, value: Value) returns (r: Result<()>)
      requires Valid()
      modifies conn
      ensures Follows(limits, old(State()), PutEdgeProperty(e, key, value), State(), Answer(r), Valid())
    {
      hide EdgesOk, NodeRowsOk, IdsOk, RecordsOk, LabelCountsOk, IndexesOk, NextSeq, NextNode, Closed, WithProperty;
      ghost var state := State();
      SetEdgePropertyAt(conn, e.src, e.dst, e.lbl, e.num, key, value);
      assert Edge(e.src, e.dst, e.lbl, e.num) == e;
      StepClosed(limits, state, PutEdgeProperty(e, key, value));
      return Ok(());
    }

    /** SET of all properties of one relationship. */
    method SetEdgeProperties(e: Edge, props: Props) returns (r: Result<()>)
      requires Valid()
      modifies conn
      ensures Follows(limits, old(State()), PutEdgeProperties(e, props), State(), Answer(r), Valid())
    {
      hide EdgesOk, NodeRowsOk, IdsOk, RecordsOk, LabelCountsOk, IndexesOk, NextSeq, NextNode, Closed;
      ghost var state := State();
      SetAllEdgePropertiesAt(conn, e.src, e.dst, e.lbl, e.num, props);
      assert Edge(e.src, e.dst, e.lbl, e.num) == e;
      StepClosed(limits, state, PutEdgeProperties(e, props));
      return Ok(());
    }

    /** SET of all properties of a node. */
    method SetProperties(id: u64, props: Props) returns (r: Result<()>)
      requires Valid()
      modifies conn
      ensures Follows(limits, old(State()), PutProperties(id, props), State(), Answer(r), Valid())
    {
      hide EdgesOk, NodeRowsOk, IdsOk, RecordsOk, LabelCountsOk, IndexesOk, NextSeq, NextNode, TouchTables, Elems,
           NamesOk, Closed, Entry;
      ghost var state := State();
      var node := GetNode(conn, id);
      if node.Err? {
        return Err(node.error);
      }
      r := SetAllNodeProperties(conn, id, props);
      IndexNamesOk(conn.indexTables, conn.encode, old(conn.nodeSet), conn.indexSet);
      UpdateIndexesForNode(conn, id, node.value.labels, Some(node.value.props), props);
      IndexesAfterChange(old(conn.indexTables), conn.encode, old(conn.nodeSet), conn.indexSet, id, props, props);
      StepClosed(limits, state, PutProperties(id, props));
    }

    /** SET of labels: all are added first, then the node is indexed under all it has. */
    method SetLabels(id: u64, labels: seq<Name>) returns (r: Result<()>)
      requires Valid()
      modifies conn
      ensures Follows(limits, old(State()), PutLabels(id, labels), State(), Answer(r), Valid())
    {
      hide EdgesOk, NodeRowsOk, IdsOk, RecordsOk, LabelCountsOk, IndexesOk, NextSeq, NextNode, EdgeSide, TouchTables,
           Elems, NamesOk, Closed, WithLabel, WithLabels;
      ghost var state, edges := State(), conn.EdgeState();
      NoLabelsChanged(conn.nodeSet, id);
      for i := 0 to |labels|
        invariant conn.NodesValid() && conn.LabelsCounted() && EdgeSide(conn.meta) == EdgeSide(edges.meta)
        modifies conn`nodes, conn`nodeSet, conn`meta
        invariant i > 0 ==> id in state.nodes
        invariant NextNode(conn.meta) == state.nextNode
        invariant conn.nodeSet ==
                  if id in state.nodes then state.nodes[id := WithLabels(state.nodes[id], labels[..i])] else state.nodes
      {
        LabelsOneMore(labels, i);
        r := AddNodeLabel(conn, id, labels[i]);
        if r.Err? {
          EdgeSideKept(edges, conn.meta, conn.edgeSet);
          return;
        }
      }
      assert labels[..|labels|] == labels;
      EdgeSideKept(edges, conn.meta, conn.edgeSet);
      var node := GetNode(conn, id);
      if node.Err? {
        return Err(node.error);
      }
      IndexNamesOk(conn.indexTables, conn.encode, old(conn.nodeSet), conn.indexSet);
      WithLabelsSpec(old(conn.nodeSet), id, labels);
      UpdateIndexesForNode(conn, id, node.value.labels, None, node.value.props);
      IndexesAfterLabels(old(conn.indexTables), conn.encode, old(conn.nodeSet), conn.indexSet, id, node.value);
      StepClosed(limits, state, PutLabels(id, labels));
      return Ok(());
    }

    /** REMOVE of labels: for each its index entries go first, then the label. */
    method RemoveLabels(id: u64, labels: seq<Name>) returns (r: Result<()>)
      requires Valid()
      modifies conn
      ensures Follows(limits, old(State()), Op.CutLabels(id, labels), State(), Answer(r), Valid())
    {
      hide EdgesOk, NodeRowsOk, IdsOk, RecordsOk, LabelCountsOk, IndexesOk, NextSeq, NextNode, EdgeSide, TouchTables,
           Elems, NamesOk, Closed, WithoutLabel, WithoutLabels;
      ghost var state, edges := State(), conn.EdgeState();
      var node := GetNode(conn, id);
      if node.Err? {
        return Err(node.error);
      }
      NoLabelsChanged(conn.nodeSet, id);
      for i := 0 to |labels|
        invariant conn.NodesValid() && conn.LabelsCounted() && EdgeSide(conn.meta) == EdgeSide(edges.meta)
        invariant NextNode(conn.meta) == state.nextNode
        modifies conn`nodes, conn`nodeSet, conn`meta, conn`indexTables
        invariant IndexesOk(conn.indexTables, conn.encode, conn.nodeSet, conn.indexSet)
        invariant conn.nodeSet == state.nodes[id := WithoutLabels(state.nodes[id], labels[..i])]
      {
        ghost var nodes := conn.nodeSet;
        WithoutLabelsSpec(state.nodes, id, labels[..i]);
        LabelsOneMore(labels, i);
        LabelCut(nodes, id, labels[i]);
        IndexNamesOk(conn.indexTables, conn.encode, nodes, conn.indexSet);
        IndexesAfterLabelCut(conn.indexTables, conn.encode, nodes, conn.indexSet, id,
                             WithoutLabel(nodes[id], labels[i]), labels[i]);
        RemoveIndexesForLabel(conn, id, labels[i], node.value.props);
        r := RemoveNodeLabel(conn, id, labels[i]);
      }
      assert labels[..|labels|] == labels;
      EdgeSideKept(edges, conn.meta, conn.edgeSet);
      StepClosed(limits, state, Op.CutLabels(id, labels));
      return Ok(());
    }

    /** One operation. */
    method Apply(op: Op) returns (r: Result<Reply>)
      requires Valid() && Callable(State(), op)
      modifies conn
      ensures Follows(limits, old(State()), op, State(), r, Valid())
    {
      hide Step, Safe, Valid;
      var done: Result<()>;
      match op {
        case NewNode(labels, props) =>
          var id := CreateNodeWithLabels(labels, props);
          return if id.Ok? then Ok(Created(id.value)) else Err(id.error);
        case DropNode(id) => done := DeleteNode(id);
        case PutProperty(id, key, value) => done := SetNodeProperty(id, key, value);
        case CutProperty(id, key) => done := RemoveNodeProperty(id, key);
        case NewEdge(src, dst, lbl, props) => done := CreateEdge(src, dst, lbl, props);
        case DropEdges(src, dst, lbl) => done := DeleteEdge(src, dst, lbl);
        case DropEdge(e) => done := DeleteSingleEdge(e);
        case PutEdgeProperty(e, key, value) => done := SetEdgeProperty(e, key, value);
        case PutEdgeProperties(e, props) => done := SetEdgeProperties(e, props);
        case PutProperties(id, props) => done := SetProperties(id, props);
        case PutLabels(id, labels) => done := SetLabels(id, labels);
        case CutLabels(id, labels) => done := RemoveLabels(id, labels);
        case MakeNode(labels, props) =>
          var id := QueryCreateNode(labels, props);
          return if id.Ok? then Ok(Created(id.value)) else Err(id.error);
        case MakeEdge(src, dst, lbl, props) => done := QueryCreateEdge(src, dst, lbl, props);
        case EraseNode(id, detach) => done := QueryDeleteNode(id, detach);
        case AssignProperty(id, key, value) => done := QuerySetProperty(id, key, value);
        case MergeProperty(id, key, value) => done := MergeSetProperty(id, key, value);
        case NewIndex(d) => done := CreateIndex(d);
        case DropIndex(d) => done := this.DropIndex(d);
      }
      return Answer(done);
    }

    /** Operations between BEGIN and COMMIT, with ROLLBACK at the first error: over every run of safe
        operations the tables represent the graph that the run produces, and after an error the
        graph there was, exhausted numbers included. */
    method Execute(ops: seq<Op>) returns (r: Result<seq<Reply>>)
      requires Valid() && SafeRun(limits, State(), ops)
      modifies conn
      ensures Valid()
      ensures match Run(limits, old(State()), ops, [])
              case Err(e) => r == Err(e) && State() == old(State())
              case Ok((s, replies)) => r == Ok(replies) && State() == s
    {
      hide Step, Safe, Represents;
      var saved := Stored();
      ghost var state := State();
      var replies: seq<Reply> := [];
      assert ops[0..] == ops;
      for i := 0 to |ops|
        invariant Valid() && SafeRun(limits, State(), ops[i..])
        invariant Run(limits, state, ops, []) == Run(limits, State(), ops[i..], replies)
      {
        assert ops[i..][0] == ops[i] && ops[i..][1..] == ops[i + 1..];
        var reply := Apply(ops[i]);
        if reply.Err? {
          Rollback(saved, state);
          return Err(reply.error);
        }
        replies := replies + [reply.value];
      }
      return Ok(replies);
    }

    /** ROLLBACK: SQLite puts every table back as it was at BEGIN. */
    method Rollback(saved: Image, ghost state: GraphState)
      requires Represents(saved, conn.encode, state)
      modifies conn
      ensures Stored() == saved && State() == state && Valid()
    {
      CountersShown(saved, conn.encode, state);
      hide Represents;
      conn.nodes, conn.adjOut, conn.adjIn, conn.edgeProps := saved.nodes, saved.adjOut, saved.adjIn, saved.edgeProps;
      conn.meta, conn.indexTables := saved.meta, saved.indexTables;
      conn.edgeSet, conn.nodeSet, conn.indexSet := state.edges, state.nodes, state.indexes;
      assert Stored() == saved && State() == state;
    }
  }

  /** On a represented graph the two ways of saying that a scan is clean agree. */
  lemma CleanIff(t: EdgeTables, s: GraphState, src: u64, dst: u64, lbl: Name)
    requires EdgesOk(t, s.edges)
    ensures ScanClean(t.rows.Keys, src, dst, lbl) <==> NoStrayRows(s, src, dst, lbl)
  {
    hide EdgeKey, EdgePrefix, EdgeFromKey, NulFree, AdjOk, NumbersOk, TypeCountsOk, Extends;
    var prefix := EdgePrefix(src, dst, lbl);
    if k :| k in Extensions(t.rows.Keys, prefix) {
      assert RowOf(k, s.edges.Keys);
      assert Extends(prefix, EdgeKey(EdgeFromKey(k).value));
    }
    if e :| e in s.edges && Extends(prefix, EdgeKey(e)) {
      assert HasRow(t.rows, e, s.edges[e]);
      assert EdgeKey(e) in Extensions(t.rows.Keys, prefix);
    }
  }

  /** Some edge starts or ends at the node. */
  ghost predicate HasRelationship(edges: map<Edge, Props>, id: u64) {
    exists e :: e in edges && (e.src == id || e.dst == id)
  }

  lemma DeleteFollows(lim: Limits, s: GraphState, id: u64, detach: bool, s': GraphState, r: Result<Reply>, valid: bool)
    requires Follows(lim, s, EraseNode(id, detach), s', r, valid)
    ensures r == Err(StillConnected(id)) <==> !detach && HasRelationship(s.edges, id)
    ensures !detach ==> s'.edges == s.edges
  {
    hide Safe, HasRelationship, IncidentEdges;
    NoneIncident(s.edges, id);
  }

  lemma NoneIncident(edges: map<Edge, Props>, id: u64)
    ensures IncidentEdges(edges.Keys, id) != {} <==> HasRelationship(edges, id)
    ensures IncidentEdges(edges.Keys, id) == {} ==> edges - IncidentEdges(edges.Keys, id) == edges
  {
    if e :| e in edges && (e.src == id || e.dst == id) {
      assert e in IncidentEdges(edges.Keys, id);
    }
  }

  lemma LabelsOneMore(labels: seq<Name>, i: nat)
    requires i < |labels|
    ensures forall r: NodeRecord :: WithLabels(r, labels[..i + 1]) == WithLabel(WithLabels(r, labels[..i]), labels[i])
    ensures forall r: NodeRecord ::
              WithoutLabels(r, labels[..i + 1]) == WithoutLabel(WithoutLabels(r, labels[..i]), labels[i])
  {
    hide WithLabel, WithoutLabel;
    assert labels[..i + 1][..i] == labels[..i];
  }

  lemma NoLabelsChanged(nodes: map<u64, NodeRecord>, id: u64)
    ensures forall r: NodeRecord :: WithLabels(r, []) == r && WithoutLabels(r, []) == r
    ensures id in nodes ==> nodes[id := nodes[id]] == nodes
  {
  }

  lemma WithLabelsSpec(nodes: map<u64, NodeRecord>, id: u64, labels: seq<Name>)
    requires RecordsOk(nodes) && id in nodes
    ensures var r := WithLabels(nodes[id], labels);
            r.props == nodes[id].props && Elems(nodes[id].labels) <= Elems(r.labels)
  {
    LabelListSets(nodes[id], labels);
  }

  lemma WithoutLabelsSpec(nodes: map<u64, NodeRecord>, id: u64, labels: seq<Name>)
    requires RecordsOk(nodes) && id in nodes
    ensures WithoutLabels(nodes[id], labels).props == nodes[id].props
  {
    LabelListSets(nodes[id], labels);
  }

  lemma LabelCut(nodes: map<u64, NodeRecord>, id: u64, lbl: Name)
    requires RecordsOk(nodes) && id in nodes
    ensures var r := WithoutLabel(nodes[id], lbl);
            r.props == nodes[id].props && Elems(r.labels) == Elems(nodes[id].labels) - {lbl}
  {
    LabelSets(nodes[id], lbl);
  }

  lemma SameElems(a: seq<Name>, b: seq<Name>)
    requires multiset(a) == multiset(b)
    ensures Elems(a) == Elems(b)
  {
    forall x ensures x in a <==> x in b {
      assert x in a <==> x in multiset(a);
      assert x in b <==> x in multiset(b);
    }
  }
}
