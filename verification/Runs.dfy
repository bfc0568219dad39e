/** What the write operations of a transaction (src/transaction.rs:247-413) and the further ones of the
    query language (src/cypher/executor/write.rs, merge.rs) mean for the graph, without any table. */
module Runs {
  import opened Prelude
  import opened Graph
  import opened Keys
  import opened Kv
  import opened Db
  import opened Edges
  import opened Nodes
  import opened Cascade
  import opened Index
  import opened IndexStore

  datatype GraphState = GraphState(
    nodes: map<u64, NodeRecord>,
    edges: map<Edge, Props>,
    indexes: set<IndexDef>,
    nextNode: u64,
    nextSeq: u64)

  datatype Op =
    | NewNode(labels: seq<Name>, props: Props)
    | DropNode(id: u64)
    | PutProperty(id: u64, key: Name, value: Value)
    | CutProperty(id: u64, key: Name)
    | NewEdge(src: u64, dst: u64, lbl: Name, props: Props)
    | DropEdges(src: u64, dst: u64, lbl: Name)
    | DropEdge(edge: Edge)
    | PutEdgeProperty(edge: Edge, key: Name, value: Value)
    | PutEdgeProperties(edge: Edge, props: Props)
    | PutProperties(id: u64, props: Props)
    | PutLabels(id: u64, labels: seq<Name>)
    | CutLabels(id: u64, labels: seq<Name>)
    | MakeNode(labels: seq<Name>, props: Props)
    | MakeEdge(src: u64, dst: u64, lbl: Name, props: Props)
    | EraseNode(id: u64, detach: bool)
    | AssignProperty(id: u64, key: Name, value: Value)
    | MergeProperty(id: u64, key: Name, value: Value)
    | NewIndex(def: IndexDef)
    | DropIndex(def: IndexDef)

  datatype Reply = Done | Created(id: u64)

  datatype Limits = Limits(nameBytes: nat, valueBytes: nat)

  // ---------------------------------------------------------------- size limits

  /** `value_byte_size`. */
  function ValueSize(v: Value): nat {
    match v
    case Text(s) => |s|
    case List(items) => ItemsSize(items)
    case _ => 8
  }

  function ItemsSize(items: seq<Value>): nat {
    if items == [] then 0 else ValueSize(items[0]) + ItemsSize(items[1..])
  }

  /** `validate_properties`. */
  predicate FitsLimits(lim: Limits, name: Name, props: Props) {
    |name| <= lim.nameBytes && forall k :: k in props ==> |k| <= lim.nameBytes && ValueSize(props[k]) <= lim.valueBytes
  }

  function PrimaryLabel(labels: seq<Name>): Name {
    if labels == [] then [] else labels[0]
  }

  // ---------------------------------------------------------------- one operation

  function AddNode(s: GraphState, record: NodeRecord): GraphState
    requires s.nextNode + 1 < U64_LIMIT
  {
    s.(nodes := s.nodes[s.nextNode := record], nextNode := s.nextNode + 1)
  }

  function AddEdge(s: GraphState, src: u64, dst: u64, lbl: Name, props: Props): GraphState
    requires s.nextSeq + 1 < U64_LIMIT
  {
    s.(edges := s.edges[Edge(src, dst, lbl, s.nextSeq) := props], nextSeq := s.nextSeq + 1)
  }

  function RemoveNode(s: GraphState, id: u64): GraphState {
    s.(nodes := s.nodes - {id}, edges := s.edges - IncidentEdges(s.edges.Keys, id))
  }

  function WithProps(s: GraphState, id: u64, props: Props): GraphState
    requires id in s.nodes
  {
    s.(nodes := s.nodes[id := s.nodes[id].(props := props)])
  }

  function WithRecord(s: GraphState, id: u64, record: NodeRecord): GraphState {
    s.(nodes := s.nodes[id := record])
  }

  /** A record with some labels more, one after the other, or some less. */
  function WithLabels(record: NodeRecord, labels: seq<Name>): NodeRecord {
    if labels == [] then record else WithLabel(WithLabels(record, labels[..|labels| - 1]), labels[|labels| - 1])
  }

  function WithoutLabels(record: NodeRecord, labels: seq<Name>): NodeRecord {
    if labels == [] then record else WithoutLabel(WithoutLabels(record, labels[..|labels| - 1]), labels[|labels| - 1])
  }

  /** They are the labels there were and the listed ones, or the labels there were without those. */
  lemma {:induction false} LabelListSets(record: NodeRecord, labels: seq<Name>)
    requires NoDup(record.labels)
    ensures var more, less := WithLabels(record, labels), WithoutLabels(record, labels);
            && more.props == record.props == less.props && NoDup(more.labels) && NoDup(less.labels)
            && Elems(more.labels) == Elems(record.labels) + Elems(labels)
            && Elems(less.labels) == Elems(record.labels) - Elems(labels)
    decreases |labels|
  {
    hide WithLabel, WithoutLabel, NoDup;
    if labels != [] {
      var init, last := labels[..|labels| - 1], labels[|labels| - 1];
      LabelListSets(record, init);
      LabelSets(WithLabels(record, init), last);
      LabelSets(WithoutLabels(record, init), last);
      assert labels == init + [last];
      ElemsConcat(init, [last]);
      ElemsSingle(last);
    }
  }

  /** New properties for an edge, if there is one. */
  function WithEdgeProps(s: GraphState, e: Edge, props: Props): GraphState {
    if e in s.edges then s.(edges := s.edges[e := props]) else s
  }

  /** `create_node`. */
  function NodeMade(s: GraphState, labels: seq<Name>, props: Props): Result<(GraphState, Reply)> {
    if !(forall i :: 0 <= i < |labels| ==> ValidName(labels[i])) || !ValidKeys(props) then Err(InvalidName)
    else if s.nextNode + 1 == U64_LIMIT then Err(SpaceExhausted)
    else Ok((AddNode(s, NodeRecord(SortNames(labels), props)), Created(s.nextNode)))
  }

  /** `create_edge`, which does not ask whether its ends exist. */
  function EdgeMade(s: GraphState, src: u64, dst: u64, lbl: Name, props: Props): Result<(GraphState, Reply)> {
    if !ValidName(lbl) || !ValidKeys(props) then Err(InvalidName)
    else if s.nextSeq + 1 == U64_LIMIT then Err(SpaceExhausted)
    else Ok((AddEdge(s, src, dst, lbl, props), Done))
  }

  /** A property set to a value, or removed with Null. */
  function PropertyPut(s: GraphState, id: u64, key: Name, value: Value): Result<(GraphState, Reply)> {
    if id !in s.nodes then Err(NodeNotFound(id))
    else if !ValidName(key) then Err(InvalidName)
    else Ok((WithProps(s, id, WithProperty(s.nodes[id].props, key, value)), Done))
  }

  /** The effect and the answer of one operation, its error checks in the source's order. */
  function Step(lim: Limits, s: GraphState, op: Op): Result<(GraphState, Reply)> {
    match op
    case NewNode(labels, props) =>
      if !FitsLimits(lim, PrimaryLabel(labels), props) then Err(SizeLimit) else NodeMade(s, labels, props)
    case DropNode(id) =>
      if id !in s.nodes then Err(NodeNotFound(id)) else Ok((RemoveNode(s, id), Done))
    case PutProperty(id, key, value) =>
      if !FitsLimits(lim, [95], map[key := value]) then Err(SizeLimit) else PropertyPut(s, id, key, value)
    case CutProperty(id, key) =>
      if id !in s.nodes then Err(NodeNotFound(id)) else Ok((WithProps(s, id, s.nodes[id].props - {key}), Done))
    case NewEdge(src, dst, lbl, props) =>
      if !FitsLimits(lim, lbl, props) then Err(SizeLimit)
      else if src !in s.nodes then Err(NodeNotFound(src))
      else if dst !in s.nodes then Err(NodeNotFound(dst))
      else EdgeMade(s, src, dst, lbl, props)
    case DropEdges(src, dst, lbl) =>
      Ok((s.(edges := s.edges - Parallel(s.edges.Keys, src, dst, lbl)), Done))
    case DropEdge(e) =>
      Ok((s.(edges := s.edges - {e}), Done))
    case PutEdgeProperty(e, key, value) =>
      Ok((WithEdgeProps(s, e, WithProperty(if e in s.edges then s.edges[e] else map[], key, value)), Done))
    case PutEdgeProperties(e, props) =>
      Ok((WithEdgeProps(s, e, props), Done))
    case PutProperties(id, props) =>
      if id !in s.nodes then Err(NodeNotFound(id)) else Ok((WithProps(s, id, props), Done))
    case PutLabels(id, labels) =>
      if id !in s.nodes then Err(NodeNotFound(id)) else Ok((WithRecord(s, id, WithLabels(s.nodes[id], labels)), Done))
    case CutLabels(id, labels) =>
      if id !in s.nodes then Err(NodeNotFound(id))
      else Ok((WithRecord(s, id, WithoutLabels(s.nodes[id], labels)), Done))
    case MakeNode(labels, props) => NodeMade(s, labels, props)
    case MakeEdge(src, dst, lbl, props) => EdgeMade(s, src, dst, lbl, props)
    case EraseNode(id, detach) =>
      if !detach && IncidentEdges(s.edges.Keys, id) != {} then Err(StillConnected(id))
      else if id !in s.nodes then Ok((s, Done))
      else Ok((RemoveNode(s, id), Done))
    case AssignProperty(id, key, value) => PropertyPut(s, id, key, value)
    case MergeProperty(id, key, value) => PropertyPut(s, id, key, value)
    case NewIndex(d) =>
      var bad := CheckDef(d);
      if bad.Some? then Err(bad.value)
      else if d in s.indexes then Err(IndexAlreadyExists)
      else if exists e :: e in s.indexes && Found(s.indexes, d, e) then Err(TableExists)
      else Ok((s.(indexes := s.indexes + {d}), Done))
    case DropIndex(d) =>
      var bad := CheckDef(d);
      if bad.Some? then Err(bad.value)
      else if d !in s.indexes then Err(IndexNotFound)
      else Ok((s.(indexes := s.indexes - {d}), Done))
  }

  /** No edge row begins as a scan for (src, dst, lbl) does, or all that do are of that type. */
  ghost predicate NoStrayRows(s: GraphState, src: u64, dst: u64, lbl: Name) {
    NulFree(lbl) || forall e :: e in s.edges ==> !Extends(EdgePrefix(src, dst, lbl), EdgeKey(e))
  }

  ghost predicate NullHarmless(s: GraphState, id: u64, key: Name, value: Value) {
    id in s.nodes && value == Null ==> !NullWouldBeIndexed(s.nodes, s.indexes, id, key)
  }

  /** Where the tables keep up with the graph. Each exception is a branch of the source: repeated
      labels are counted twice, a Null is indexed but not stored, a scan for a type with a NUL byte can
      meet rows of other types, a property is written for an edge that is not there, the query language
      makes an edge to a node that is not there, and the backfill of a new index trusts a `LIKE` scan. */
  ghost predicate Safe(s: GraphState, op: Op) {
    match op
    case NewNode(labels, _) => NoDup(labels)
    case MakeNode(labels, _) => NoDup(labels)
    case MakeEdge(src, dst, _, _) => src in s.nodes && dst in s.nodes
    case PutProperty(id, key, value) => NullHarmless(s, id, key, value)
    case MergeProperty(id, key, value) => NullHarmless(s, id, key, value)
    case DropEdges(src, dst, lbl) => NoStrayRows(s, src, dst, lbl)
    case PutEdgeProperty(e, _, _) => e in s.edges
    case PutEdgeProperties(e, _) => e in s.edges
    case NewIndex(d) => ScanAgrees(s.nodes, d)
    case _ => true
  }

  /** A label list with repeats is not so long that a counter would pass 64 bits; no machine could hold it. */
  predicate Callable(s: GraphState, op: Op) {
    op.NewNode? || op.MakeNode? ==> NoDup(op.labels) || s.nextNode + |op.labels| < U64_LIMIT
  }

  // ---------------------------------------------------------------- endpoints

  /** No edge without its two nodes, no node id that was not handed out. */
  ghost predicate Closed(s: GraphState) {
    (forall e :: e in s.edges ==> e.src in s.nodes && e.dst in s.nodes) &&
    (forall id :: id in s.nodes ==> id < s.nextNode)
  }

  /** Both ends are there where an operation does not look. */
  predicate EndsThere(s: GraphState, op: Op) {
    op.MakeEdge? ==> op.src in s.nodes && op.dst in s.nodes
  }

  /** Edges are made between existing nodes and go with either of them; only the CREATE of the query language
      can leave an edge without an end, and does exactly when an end is not there. */
  lemma StepClosed(lim: Limits, s: GraphState, op: Op)
    requires Closed(s) && Step(lim, s, op).Ok?
    ensures Closed(Step(lim, s, op).value.0) <==> EndsThere(s, op)
  {
    hide ValidName, ValidKeys, FitsLimits, CheckDef, SortNames, NoDup;
    var s' := Step(lim, s, op).value.0;
    if op.MakeEdge? || op.NewEdge? {
      assert Edge(op.src, op.dst, op.lbl, s.nextSeq) in s'.edges;
    }
    forall e | e in s'.edges && EndsThere(s, op) ensures e.src in s'.nodes && e.dst in s'.nodes {
      assert e in s.edges || ((op.NewEdge? || op.MakeEdge?) && e == Edge(op.src, op.dst, op.lbl, s.nextSeq));
    }
  }

  // ---------------------------------------------------------------- whole transactions

  /** A transaction: all operations in order, or the first error and no effect. */
  function Run(lim: Limits, s: GraphState, ops: seq<Op>, replies: seq<Reply>): Result<(GraphState, seq<Reply>)>
    decreases |ops|
  {
    if ops == [] then Ok((s, replies))
    else
      match Step(lim, s, ops[0])
      case Err(e) => Err(e)
      case Ok((s', reply)) => Run(lim, s', ops[1..], replies + [reply])
  }

  /** Every operation that succeeds is safe. The one that fails, if any, need not be. */
  ghost predicate SafeRun(lim: Limits, s: GraphState, ops: seq<Op>)
    decreases |ops|
  {
    ops == [] ||
    (Callable(s, ops[0]) &&
     match Step(lim, s, ops[0])
     case Err(_) => true
     case Ok((s', _)) => Safe(s, ops[0]) && SafeRun(lim, s', ops[1..]))
  }

  /** At no moment of the run is there an edge without its two nodes. */
  ghost predicate ClosedThroughout(lim: Limits, s: GraphState, ops: seq<Op>)
    decreases |ops|
  {
    Closed(s) &&
    (ops == [] ||
     match Step(lim, s, ops[0])
     case Err(_) => true
     case Ok((s', _)) => ClosedThroughout(lim, s', ops[1..]))
  }

  /** The query language makes no edge to a node that is not there at that moment. */
  predicate EndsThroughout(lim: Limits, s: GraphState, ops: seq<Op>)
    decreases |ops|
  {
    ops == [] ||
    match Step(lim, s, ops[0])
    case Err(_) => true
    case Ok((s', _)) => EndsThere(s, ops[0]) && EndsThroughout(lim, s', ops[1..])
  }

  /** Edges keep their nodes throughout a run exactly when no CREATE names a node that is gone; safe runs do. */
  lemma {:induction false} RunClosed(lim: Limits, s: GraphState, ops: seq<Op>)
    requires Closed(s)
    ensures ClosedThroughout(lim, s, ops) <==> EndsThroughout(lim, s, ops)
    ensures SafeRun(lim, s, ops) ==> EndsThroughout(lim, s, ops)
    decreases |ops|
  {
    hide Step, Closed, EndsThere, Safe;
    if ops != [] && Step(lim, s, ops[0]).Ok? {
      StepClosed(lim, s, ops[0]);
      SafeEnds(s, ops[0]);
      var s' := Step(lim, s, ops[0]).value.0;
      if Closed(s') {
        RunClosed(lim, s', ops[1..]);
      }
    }
  }

  lemma SafeEnds(s: GraphState, op: Op)
    ensures Safe(s, op) ==> EndsThere(s, op)
  {
  }

  /** Nor is there one at its end. */
  lemma {:induction false} RunEndsClosed(lim: Limits, s: GraphState, ops: seq<Op>, replies: seq<Reply>)
    requires ClosedThroughout(lim, s, ops) && Run(lim, s, ops, replies).Ok?
    ensures Closed(Run(lim, s, ops, replies).value.0)
    decreases |ops|
  {
    hide Step, Closed;
    if ops != [] {
      var (s', reply) := Step(lim, s, ops[0]).value;
      RunEndsClosed(lim, s', ops[1..], replies + [reply]);
    }
  }

  lemma RunOfTwo(lim: Limits, s: GraphState, op: Op, next: Op, s1: GraphState, s2: GraphState)
    requires Step(lim, s, op) == Ok((s1, Done)) && Step(lim, s1, next) == Ok((s2, Done))
    ensures Run(lim, s, [op, next], []) == Ok((s2, [Done, Done]))
  {
    hide Step;
    var ops, none := [op, next], [];
    assert ops[1..] == [next] && [next][1..] == [];
    assert none + [Done] == [Done] && [Done] + [Done] == [Done, Done];
    assert Run(lim, s2, [], [Done, Done]) == Ok((s2, [Done, Done]));
    assert Run(lim, s1, [next], [Done]) == Run(lim, s2, [], [Done] + [Done]);
    assert Run(lim, s, ops, none) == Run(lim, s1, ops[1..], none + [Done]);
  }

  /** `MATCH (a), (b) DETACH DELETE a CREATE (a)-[:R]->(b)` succeeds, whatever the graph, and leaves an edge
      without its source. */
  lemma CreateAfterDelete(lim: Limits, s: GraphState, a: u64, b: u64, lbl: Name, props: Props)
    requires Closed(s) && a in s.nodes && b in s.nodes
    requires ValidName(lbl) && ValidKeys(props) && s.nextSeq + 1 < U64_LIMIT
    ensures var r := Run(lim, s, [EraseNode(a, true), MakeEdge(a, b, lbl, props)], []);
            r.Ok? && !Closed(r.value.0) && Edge(a, b, lbl, s.nextSeq) in r.value.0.edges && a !in r.value.0.nodes
  {
    hide ValidName, ValidKeys, FitsLimits, CheckDef, SortNames, NoDup;
    var s1 := RemoveNode(s, a);
    var s2 := AddEdge(s1, a, b, lbl, props);
    assert Edge(a, b, lbl, s.nextSeq) in s2.edges;
    RunOfTwo(lim, s, EraseNode(a, true), MakeEdge(a, b, lbl, props), s1, s2);
  }

  /** The ids a run has handed out, in order. */
  function CreatedIds(replies: seq<Reply>): seq<u64> {
    if replies == [] then []
    else
      var init := CreatedIds(replies[..|replies| - 1]);
      match replies[|replies| - 1]
      case Done => init
      case Created(id) => init + [id]
  }

  ghost predicate IdsBelow(ids: seq<u64>, next: u64) {
    StrictlySorted(ids) && forall i :: 0 <= i < |ids| ==> ids[i] < next
  }

  lemma ReplyAdded(replies: seq<Reply>, reply: Reply)
    ensures CreatedIds(replies + [reply]) == CreatedIds(replies) + (if reply.Created? then [reply.id] else [])
  {
    assert (replies + [reply])[..|replies|] == replies;
  }

  lemma StepCounters(lim: Limits, s: GraphState, op: Op)
    requires Step(lim, s, op).Ok?
    ensures var (s', reply) := Step(lim, s, op).value;
            && s'.nextSeq >= s.nextSeq
            && (if reply.Created? then reply.id == s.nextNode && s'.nextNode == s.nextNode + 1
                else s'.nextNode == s.nextNode)
            && (forall e :: e in s'.edges && e !in s.edges ==> s.nextSeq == e.num && e.num < s'.nextSeq)
  {
    hide ValidName, ValidKeys, FitsLimits, CheckDef, SortNames, NoDup;
  }

  /** Node ids are handed out in increasing order and never again, deletions notwithstanding. */
  lemma {:induction false} RunIdsIncrease(lim: Limits, s: GraphState, ops: seq<Op>, replies: seq<Reply>)
    requires IdsBelow(CreatedIds(replies), s.nextNode) && Run(lim, s, ops, replies).Ok?
    ensures var (s', all) := Run(lim, s, ops, replies).value;
            s.nextNode <= s'.nextNode && IdsBelow(CreatedIds(all), s'.nextNode)
    decreases |ops|
  {
    hide Step;
    if ops != [] {
      StepCounters(lim, s, ops[0]);
      var (s', reply) := Step(lim, s, ops[0]).value;
      ReplyAdded(replies, reply);
      RunIdsIncrease(lim, s', ops[1..], replies + [reply]);
    }
  }

  /** An edge number taken before a run is never given to another edge by it. */
  lemma {:induction false} RunNumbersFresh(lim: Limits, s: GraphState, ops: seq<Op>, replies: seq<Reply>)
    requires Run(lim, s, ops, replies).Ok?
    ensures var s' := Run(lim, s, ops, replies).value.0;
            s.nextSeq <= s'.nextSeq && forall e :: e in s'.edges && e !in s.edges ==> s.nextSeq <= e.num < s'.nextSeq
    decreases |ops|
  {
    hide Step;
    if ops != [] {
      StepCounters(lim, s, ops[0]);
      var (s', reply) := Step(lim, s, ops[0]).value;
      RunNumbersFresh(lim, s', ops[1..], replies + [reply]);
    }
  }
}
