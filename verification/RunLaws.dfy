/** What the operations refuse and what they change, said of the graph alone: when each error comes, which
    edges, nodes, properties, labels and indexes differ afterwards, and what a whole run can have removed
    (src/transaction.rs:247-413, src/cypher/executor/write.rs). */
module RunLaws {
  import opened Prelude
  import opened Bytes
  import opened Graph
  import opened Db
  import opened Edges
  import opened Nodes
  import opened Cascade
  import opened Index
  import opened Patterns
  import opened Runs

  // ---------------------------------------------------------------- what is refused

  predicate Touches(e: Edge, id: u64) {
    e.src == id || e.dst == id
  }

  predicate TooLong(lim: Limits, props: Props) {
    exists k :: k in props && (|k| > lim.nameBytes || ValueSize(props[k]) > lim.valueBytes)
  }

  predicate BadKey(props: Props) {
    exists k :: k in props && !ValidName(k)
  }

  predicate BadLabel(labels: seq<Name>) {
    exists l :: l in labels && !ValidName(l)
  }

  /** The size of a list is that of its parts; a text counts its bytes, anything else eight. */
  lemma {:induction false} SizeOfList(a: seq<Value>, b: seq<Value>)
    ensures ValueSize(List(a + b)) == ValueSize(List(a)) + ValueSize(List(b))
    decreases |a|
  {
    if a == [] {
      assert a + b == b;
    } else {
      SizeOfList(a[1..], b);
      assert (a + b)[1..] == a[1..] + b;
    }
  }

  lemma SizeOfValues(v: Value, text: seq<byte>, b: bool, n: int)
    ensures ValueSize(List([v])) == ValueSize(v) && ValueSize(List([])) == 0
    ensures ValueSize(Text(text)) == |text| && ValueSize(Null) == ValueSize(Bool(b)) == ValueSize(I64(n)) == 8
  {
    assert [v][1..] == [] && ItemsSize([v]) == ValueSize(v) + ItemsSize([v][1..]);
  }

  /** An operation with size limits breaks one of them. */
  predicate Oversized(lim: Limits, op: Op) {
    match op
    case NewNode(labels, props) => (labels != [] && |labels[0]| > lim.nameBytes) || TooLong(lim, props)
    case NewEdge(_, _, lbl, props) => |lbl| > lim.nameBytes || TooLong(lim, props)
    case PutProperty(_, key, value) => lim.nameBytes < 1 || |key| > lim.nameBytes || ValueSize(value) > lim.valueBytes
    case _ => false
  }

  /** `id` is the first node that the operation needs and that is not there. */
  predicate Misses(s: GraphState, op: Op, id: u64) {
    id !in s.nodes &&
    match op
    case NewEdge(src, dst, _, _) => id == src || (id == dst && src in s.nodes)
    case DropNode(n) => id == n
    case PutProperty(n, _, _) => id == n
    case CutProperty(n, _) => id == n
    case PutProperties(n, _) => id == n
    case PutLabels(n, _) => id == n
    case CutLabels(n, _) => id == n
    case AssignProperty(n, _, _) => id == n
    case MergeProperty(n, _, _) => id == n
    case _ => false
  }

  predicate Misnamed(op: Op) {
    match op
    case NewNode(labels, props) => BadLabel(labels) || BadKey(props)
    case MakeNode(labels, props) => BadLabel(labels) || BadKey(props)
    case NewEdge(_, _, lbl, props) => !ValidName(lbl) || BadKey(props)
    case MakeEdge(_, _, lbl, props) => !ValidName(lbl) || BadKey(props)
    case PutProperty(_, key, _) => !ValidName(key)
    case AssignProperty(_, key, _) => !ValidName(key)
    case MergeProperty(_, key, _) => !ValidName(key)
    case _ => false
  }

  predicate MakesNode(op: Op) {
    op.NewNode? || op.MakeNode?
  }

  predicate MakesEdge(op: Op) {
    op.NewEdge? || op.MakeEdge?
  }

  predicate OnIndex(op: Op) {
    op.NewIndex? || op.DropIndex?
  }

  /** The number that the operation would take is the last one there is. */
  predicate Exhausted(s: GraphState, op: Op) {
    (MakesNode(op) && s.nextNode == U64_LIMIT - 1) || (MakesEdge(op) && s.nextSeq == U64_LIMIT - 1)
  }

  /** A DELETE without DETACH of a node with a relationship. */
  ghost predicate Refused(s: GraphState, op: Op) {
    op.EraseNode? && !op.detach && exists e :: e in s.edges && Touches(e, op.id)
  }

  ghost predicate ErrorsAre(lim: Limits, s: GraphState, op: Op, id: u64) {
    var r, there := Step(lim, s, op), forall n :: !Misses(s, op, n);
    && (r == Err(SizeLimit) <==> Oversized(lim, op))
    && (r == Err(NodeNotFound(id)) <==> !Oversized(lim, op) && Misses(s, op, id))
    && (r == Err(InvalidName) <==> !Oversized(lim, op) && there && Misnamed(op))
    && (r == Err(SpaceExhausted) <==> !Oversized(lim, op) && there && !Misnamed(op) && Exhausted(s, op))
    && (r == Err(StillConnected(id)) <==> Refused(s, op) && id == op.id)
    && (r.Ok? <==> !Oversized(lim, op) && there && !Misnamed(op) && !Exhausted(s, op) && !Refused(s, op))
  }

  /** When an operation fails, and with which error, for all that are not about indexes: sizes are looked at
      first, then nodes, then names, then numbers; only a DELETE without DETACH is refused for relationships. */
  lemma StepErrors(lim: Limits, s: GraphState, op: Op, id: u64)
    requires !OnIndex(op)
    ensures ErrorsAre(lim, s, op, id)
  {
    hide ErrorsAre;
    if MakesNode(op) || MakesEdge(op) {
      CreationErrors(lim, s, op, id);
    } else if op.EraseNode? {
      DeleteErrors(lim, s, op, id);
    } else {
      ChangeErrors(lim, s, op, id);
    }
  }

  lemma CreationErrors(lim: Limits, s: GraphState, op: Op, id: u64)
    requires MakesNode(op) || MakesEdge(op)
    ensures ErrorsAre(lim, s, op, id)
  {
    hide ValidName, ValidKeys, FitsLimits, SortNames, TooLong, BadKey, BadLabel;
    KeysWritten(op.props);
    match op {
      case NewNode(labels, props) =>
        LimitsWritten(lim, PrimaryLabel(labels), props);
        LabelsWritten(labels);
      case MakeNode(labels, _) => LabelsWritten(labels);
      case NewEdge(src, dst, lbl, props) =>
        LimitsWritten(lim, lbl, props);
        assert src !in s.nodes ==> Misses(s, op, src);
        assert dst !in s.nodes && src in s.nodes ==> Misses(s, op, dst);
      case _ =>
    }
  }

  lemma DeleteErrors(lim: Limits, s: GraphState, op: Op, id: u64)
    requires op.EraseNode?
    ensures ErrorsAre(lim, s, op, id)
  {
    if e :| e in s.edges && Touches(e, op.id) {
      assert e in IncidentEdges(s.edges.Keys, op.id);
    }
    if e :| e in IncidentEdges(s.edges.Keys, op.id) {
      assert Touches(e, op.id);
    }
  }

  lemma ChangeErrors(lim: Limits, s: GraphState, op: Op, id: u64)
    requires !MakesNode(op) && !MakesEdge(op) && !op.EraseNode? && !OnIndex(op)
    ensures ErrorsAre(lim, s, op, id)
  {
    hide ValidName, FitsLimits, WithLabels, WithoutLabels, WithProperty;
    if op.PutProperty? {
      OneLimitWritten(lim, op.key, op.value);
    }
    if !op.DropEdges? && !op.DropEdge? && !op.PutEdgeProperty? && !op.PutEdgeProperties? && op.id !in s.nodes {
      assert Misses(s, op, op.id);
    }
  }

  lemma LimitsWritten(lim: Limits, name: Name, props: Props)
    ensures FitsLimits(lim, name, props) <==> |name| <= lim.nameBytes && !TooLong(lim, props)
  {
  }

  lemma OneLimitWritten(lim: Limits, key: Name, value: Value)
    ensures FitsLimits(lim, [95], map[key := value]) <==>
            1 <= lim.nameBytes && |key| <= lim.nameBytes && ValueSize(value) <= lim.valueBytes
  {
    if FitsLimits(lim, [95], map[key := value]) {
      assert key in map[key := value];
    }
  }

  lemma KeysWritten(props: Props)
    ensures ValidKeys(props) <==> !BadKey(props)
  {
    hide ValidName;
  }

  lemma LabelsWritten(labels: seq<Name>)
    ensures (forall i :: 0 <= i < |labels| ==> ValidName(labels[i])) <==> !BadLabel(labels)
  {
    hide ValidName;
  }

  /** Two names of an index that differ in the case of letters at most. */
  ghost predicate SameButCase(a: Name, b: Name) {
    |a| == |b| && forall i :: 0 <= i < |a| ==> Fold(a[i]) == Fold(b[i])
  }

  ghost predicate SameIndexButCase(d: IndexDef, e: IndexDef) {
    SameButCase(d.lbl, e.lbl) && |d.props| == |e.props| &&
    forall i :: 0 <= i < |d.props| ==> SameButCase(d.props[i], e.props[i])
  }

  lemma FoundWritten(defs: set<IndexDef>, d: IndexDef, e: IndexDef)
    ensures Found(defs, d, e) <==> e in defs && SameIndexButCase(d, e)
  {
    forall a: Name, b: Name ensures FoldName(a) == FoldName(b) <==> SameButCase(a, b) {
      if SameButCase(a, b) {
        assert FoldName(a) == FoldName(b);
      }
      if FoldName(a) == FoldName(b) {
        assert forall i :: 0 <= i < |a| ==> FoldName(a)[i] == FoldName(b)[i];
      }
    }
    if SameIndexButCase(d, e) {
      assert FoldNames(d.props) == FoldNames(e.props);
    }
    if FoldDef(d) == FoldDef(e) {
      assert |FoldNames(d.props)| == |FoldNames(e.props)|;
      assert forall i :: 0 <= i < |d.props| ==> FoldNames(d.props)[i] == FoldNames(e.props)[i];
    }
  }

  /** The same for indexes: names come first (`CheckDefErrors`), then whether the index is there, exactly or but
      for case. */
  lemma IndexErrors(lim: Limits, s: GraphState, op: Op)
    requires OnIndex(op)
    ensures var r, d, bad := Step(lim, s, op), op.def, CheckDef(op.def);
            && (bad.Some? ==> r == Err(bad.value))
            && (bad.None? && op.NewIndex? && d in s.indexes ==> r == Err(IndexAlreadyExists))
            && (bad.None? && op.NewIndex? && d !in s.indexes ==>
                  (r == Err(TableExists) <==> exists e :: e in s.indexes && SameIndexButCase(d, e)) &&
                  (r.Ok? <==> forall e :: e in s.indexes ==> !SameIndexButCase(d, e)))
            && (bad.None? && op.DropIndex? ==>
                  (r == Err(IndexNotFound) <==> d !in s.indexes) && (r.Ok? <==> d in s.indexes))
  {
    hide CheckDef, SameIndexButCase, Found;
    forall e ensures Found(s.indexes, op.def, e) <==> e in s.indexes && SameIndexButCase(op.def, e) {
      FoundWritten(s.indexes, op.def, e);
    }
  }

  // ---------------------------------------------------------------- what changes

  function After(lim: Limits, s: GraphState, op: Op): GraphState
    requires Step(lim, s, op).Ok?
  {
    Step(lim, s, op).value.0
  }

  /** The deletions, and the edges each takes. */
  predicate Removes(op: Op, e: Edge) {
    match op
    case DropNode(id) => Touches(e, id)
    case EraseNode(id, detach) => detach && Touches(e, id)
    case DropEdges(src, dst, lbl) => e.src == src && e.dst == dst && e.lbl == lbl
    case DropEdge(f) => e == f
    case _ => false
  }

  /** Numbers not yet taken are not in use. */
  ghost predicate Numbered(s: GraphState) {
    (forall e :: e in s.edges ==> e.num < s.nextSeq) && (forall id :: id in s.nodes ==> id < s.nextNode)
  }

  /** Which edges there are afterwards: only a deletion takes one, and only those it names or that end at its
      node; only a creation adds one, under the next number. */
  lemma StepEdges(lim: Limits, s: GraphState, op: Op, e: Edge)
    requires Numbered(s) && Step(lim, s, op).Ok?
    ensures e in After(lim, s, op).edges <==>
            (e in s.edges && (Removes(op, e) ==> op.EraseNode? && op.id !in s.nodes)) ||
            (MakesEdge(op) && e == Edge(op.src, op.dst, op.lbl, s.nextSeq))
  {
    hide ValidName, ValidKeys, FitsLimits, CheckDef, SortNames, WithLabels, WithoutLabels, WithProperty, Found;
    if op.EraseNode? && e in s.edges && Touches(e, op.id) {
      assert e in IncidentEdges(s.edges.Keys, op.id);
    }
  }

  /** Properties of an edge: a key set to a value, removed with Null, or all replaced; nothing else is touched. */
  lemma StepEdgeProps(lim: Limits, s: GraphState, op: Op, e: Edge, key: Name)
    requires Numbered(s) && Step(lim, s, op).Ok? && e in After(lim, s, op).edges
    ensures Entry(After(lim, s, op).edges[e], key) ==
            if MakesEdge(op) && e == Edge(op.src, op.dst, op.lbl, s.nextSeq) then Entry(op.props, key)
            else if op.PutEdgeProperties? && op.edge == e then Entry(op.props, key)
            else if op.PutEdgeProperty? && op.edge == e && op.key == key then
              (if op.value == Null then None else Some(op.value))
            else if e in s.edges then Entry(s.edges[e], key) else None
  {
    hide ValidName, ValidKeys, FitsLimits, CheckDef, SortNames, WithLabels, WithoutLabels, Found;
  }

  function Entry(props: Props, key: Name): Option<Value> {
    if key in props then Some(props[key]) else None
  }

  /** Which nodes there are afterwards. */
  lemma StepNodes(lim: Limits, s: GraphState, op: Op, id: u64)
    requires Numbered(s) && Step(lim, s, op).Ok?
    ensures id in After(lim, s, op).nodes <==>
            (id in s.nodes && !((op.DropNode? || op.EraseNode?) && op.id == id)) || (MakesNode(op) && id == s.nextNode)
  {
    hide ValidName, ValidKeys, FitsLimits, CheckDef, SortNames, WithLabels, WithoutLabels, WithProperty, Found;
  }

  predicate SetsProperty(op: Op, id: u64, key: Name) {
    (op.PutProperty? || op.AssignProperty? || op.MergeProperty?) && op.id == id && op.key == key
  }

  /** Properties of a node. */
  lemma StepNodeProps(lim: Limits, s: GraphState, op: Op, id: u64, key: Name)
    requires Numbered(s) && RecordsOk(s.nodes) && Step(lim, s, op).Ok? && id in After(lim, s, op).nodes
    ensures Entry(After(lim, s, op).nodes[id].props, key) ==
            if MakesNode(op) && id == s.nextNode then Entry(op.props, key)
            else if op.PutProperties? && op.id == id then Entry(op.props, key)
            else if SetsProperty(op, id, key) then (if op.value == Null then None else Some(op.value))
            else if op.CutProperty? && op.id == id && op.key == key then None
            else if id in s.nodes then Entry(s.nodes[id].props, key) else None
  {
    hide ValidName, ValidKeys, FitsLimits, CheckDef, SortNames, WithLabels, WithoutLabels, Found, NoDup;
    if (op.PutLabels? || op.CutLabels?) && op.id == id {
      LabelListSets(s.nodes[id], op.labels);
    }
  }

  /** Labels of a node: those of its creation, with those added later and without those removed. */
  lemma StepLabels(lim: Limits, s: GraphState, op: Op, id: u64, l: Name)
    requires Numbered(s) && RecordsOk(s.nodes) && Step(lim, s, op).Ok? && id in After(lim, s, op).nodes
    ensures l in After(lim, s, op).nodes[id].labels <==>
            if MakesNode(op) && id == s.nextNode then l in op.labels
            else id in s.nodes && !(op.CutLabels? && op.id == id && l in op.labels) &&
                 (l in s.nodes[id].labels || (op.PutLabels? && op.id == id && l in op.labels))
  {
    hide ValidName, ValidKeys, FitsLimits, CheckDef, SortNames, WithLabels, WithoutLabels, WithProperty, Found, NoDup;
    if (op.PutLabels? || op.CutLabels?) && op.id == id {
      LabelListSets(s.nodes[id], op.labels);
      assert forall x :: x in op.labels <==> x in Elems(op.labels);
      assert forall x :: x in s.nodes[id].labels <==> x in Elems(s.nodes[id].labels);
      var labels := After(lim, s, op).nodes[id].labels;
      assert l in labels <==> l in Elems(labels);
    }
    if MakesNode(op) && id == s.nextNode {
      SortNamesPermutes(op.labels);
      assert l in op.labels <==> l in multiset(op.labels);
      assert l in SortNames(op.labels) <==> l in multiset(SortNames(op.labels));
    }
  }

  /** Every node lists its labels in byte order. */
  ghost predicate LabelsAscend(s: GraphState) {
    forall id :: id in s.nodes ==> Ascending(s.nodes[id].labels)
  }

  lemma StepLabelsAscend(lim: Limits, s: GraphState, op: Op)
    requires LabelsAscend(s) && Step(lim, s, op).Ok?
    ensures LabelsAscend(After(lim, s, op))
  {
    hide ValidName, ValidKeys, FitsLimits, CheckDef, SortNames, WithLabels, WithoutLabels, WithProperty, Found,
         Ascending;
    if MakesNode(op) {
      SortNamesAscend(op.labels);
    }
    if op.PutLabels? || op.CutLabels? {
      LabelListsAscend(s.nodes[op.id], op.labels);
    }
  }

  lemma {:induction false} LabelListsAscend(record: NodeRecord, labels: seq<Name>)
    requires Ascending(record.labels)
    ensures Ascending(WithLabels(record, labels).labels) && Ascending(WithoutLabels(record, labels).labels)
    decreases |labels|
  {
    hide Ascending, SortNames, Retain;
    if labels != [] {
      var init, last := labels[..|labels| - 1], labels[|labels| - 1];
      LabelListsAscend(record, init);
      SortNamesAscend(WithLabels(record, init).labels + [last]);
      RetainAscends(WithoutLabels(record, init).labels, last);
    }
  }

  /** Indexes, counters and the answer. */
  lemma StepRest(lim: Limits, s: GraphState, op: Op, d: IndexDef)
    requires Step(lim, s, op).Ok?
    ensures d in After(lim, s, op).indexes <==> (d in s.indexes && op != Op.DropIndex(d)) || op == NewIndex(d)
    ensures After(lim, s, op).nextNode == s.nextNode + (if MakesNode(op) then 1 else 0)
    ensures After(lim, s, op).nextSeq == s.nextSeq + (if MakesEdge(op) then 1 else 0)
    ensures Step(lim, s, op).value.1 == if MakesNode(op) then Created(s.nextNode) else Done
  {
    hide ValidName, ValidKeys, FitsLimits, CheckDef, SortNames, WithLabels, WithoutLabels, WithProperty, Found;
  }

  // ---------------------------------------------------------------- whole runs

  /** A run of two parts is one part after the other. */
  lemma {:induction false} RunConcat(lim: Limits, s: GraphState, a: seq<Op>, b: seq<Op>, replies: seq<Reply>)
    ensures Run(lim, s, a + b, replies) ==
            match Run(lim, s, a, replies)
            case Err(e) => Err(e)
            case Ok((s', all)) => Run(lim, s', b, all)
    decreases |a|
  {
    hide Step;
    if a == [] {
      assert a + b == b;
    } else {
      assert (a + b)[0] == a[0] && (a + b)[1..] == a[1..] + b;
      if Step(lim, s, a[0]).Ok? {
        var (s', reply) := Step(lim, s, a[0]).value;
        RunConcat(lim, s', a[1..], b, replies + [reply]);
      }
    }
  }

  lemma RunOne(lim: Limits, s: GraphState, op: Op, replies: seq<Reply>)
    ensures Run(lim, s, [op], replies) ==
            if Step(lim, s, op).Err? then Err(Step(lim, s, op).error)
            else Ok((Step(lim, s, op).value.0, replies + [Step(lim, s, op).value.1]))
  {
    hide Step;
    assert [op][1..] == [];
  }

  lemma StepNumbered(lim: Limits, s: GraphState, op: Op)
    requires Numbered(s) && Step(lim, s, op).Ok?
    ensures Numbered(After(lim, s, op))
  {
    hide Step;
    var s' := After(lim, s, op);
    forall e | e in s'.edges ensures e.num < s'.nextSeq {
      StepEdges(lim, s, op, e);
      StepRest(lim, s, op, IndexDef([], []));
    }
    forall id | id in s'.nodes ensures id < s'.nextNode {
      StepNodes(lim, s, op, id);
      StepRest(lim, s, op, IndexDef([], []));
    }
  }

  /** An edge is lost only to an operation that takes it; where edges have their nodes throughout, such an
      operation does take it. No number comes back, so it is lost for good. */
  lemma {:induction false} RunEdges(lim: Limits, s: GraphState, ops: seq<Op>, replies: seq<Reply>, e: Edge)
    requires Numbered(s) && Run(lim, s, ops, replies).Ok? && e.num < s.nextSeq
    ensures var kept := e in Run(lim, s, ops, replies).value.0.edges;
            && (e in s.edges && (forall op :: op in ops ==> !Removes(op, e)) ==> kept)
            && (kept ==> e in s.edges)
            && (ClosedThroughout(lim, s, ops) && kept ==> forall op :: op in ops ==> !Removes(op, e))
    decreases |ops|
  {
    hide Step, Removes, Closed;
    if ops != [] {
      assert ops == [ops[0]] + ops[1..];
      var (s', reply) := Step(lim, s, ops[0]).value;
      assert s' == After(lim, s, ops[0]);
      StepNumbered(lim, s, ops[0]);
      StepRest(lim, s, ops[0], IndexDef([], []));
      StepEdges(lim, s, ops[0], e);
      RunEdges(lim, s', ops[1..], replies + [reply], e);
      if ClosedThroughout(lim, s, ops) && e in s.edges && Removes(ops[0], e) {
        ErasedEnds(s, ops[0], e);
      }
    }
  }

  lemma ErasedEnds(s: GraphState, op: Op, e: Edge)
    requires Closed(s) && e in s.edges && Removes(op, e)
    ensures op.EraseNode? ==> op.id in s.nodes
  {
  }

  /** A node is there at the end of a run exactly when no operation of the run deletes it. */
  lemma {:induction false} RunNodes(lim: Limits, s: GraphState, ops: seq<Op>, replies: seq<Reply>, id: u64)
    requires Numbered(s) && Run(lim, s, ops, replies).Ok? && id < s.nextNode
    ensures id in Run(lim, s, ops, replies).value.0.nodes <==>
            id in s.nodes && forall op :: op in ops ==> !((op.DropNode? || op.EraseNode?) && op.id == id)
    decreases |ops|
  {
    hide Step;
    if ops != [] {
      assert ops == [ops[0]] + ops[1..];
      var (s', reply) := Step(lim, s, ops[0]).value;
      assert s' == After(lim, s, ops[0]);
      StepNumbered(lim, s, ops[0]);
      StepRest(lim, s, ops[0], IndexDef([], []));
      StepNodes(lim, s, ops[0], id);
      RunNodes(lim, s', ops[1..], replies + [reply], id);
    }
  }

  /** One reply for each operation, the id of the new node for those that make one. */
  lemma {:induction false} RunReplies(lim: Limits, s: GraphState, ops: seq<Op>, replies: seq<Reply>)
    requires Run(lim, s, ops, replies).Ok?
    ensures var all := Run(lim, s, ops, replies).value.1;
            && |all| == |replies| + |ops| && all[..|replies|] == replies
            && forall i :: 0 <= i < |ops| ==> (all[|replies| + i].Created? <==> MakesNode(ops[i]))
    decreases |ops|
  {
    hide Step;
    if ops != [] {
      var (s', reply) := Step(lim, s, ops[0]).value;
      StepRest(lim, s, ops[0], IndexDef([], []));
      RunReplies(lim, s', ops[1..], replies + [reply]);
      var all := Run(lim, s, ops, replies).value.1;
      assert all[|replies|] == all[..|replies| + 1][|replies|] == reply;
      assert all[..|replies|] == all[..|replies| + 1][..|replies|];
      forall i | 1 <= i < |ops| ensures all[|replies| + i].Created? <==> MakesNode(ops[i]) {
        assert ops[i] == ops[1..][i - 1];
        assert all[|replies + [reply]| + (i - 1)].Created? <==> MakesNode(ops[1..][i - 1]);
      }
    }
  }

  lemma {:induction false} RunLabelsAscend(lim: Limits, s: GraphState, ops: seq<Op>, replies: seq<Reply>)
    requires LabelsAscend(s) && Run(lim, s, ops, replies).Ok?
    ensures LabelsAscend(Run(lim, s, ops, replies).value.0)
    decreases |ops|
  {
    hide Step, LabelsAscend;
    if ops != [] {
      StepLabelsAscend(lim, s, ops[0]);
      var (s', reply) := Step(lim, s, ops[0]).value;
      RunLabelsAscend(lim, s', ops[1..], replies + [reply]);
    }
  }
}
