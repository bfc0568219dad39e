/** Node writes and reads (src/storage/node.rs). */
module Nodes {
  import opened Prelude
  import opened Bytes
  import opened Kv
  import opened Graph
  import opened Db
  import opened Stats
  import opened Edges

  // ---------------------------------------------------------------- labels

  function InsertName(sorted: seq<Name>, name: Name): seq<Name> {
    if sorted == [] then [name]
    else if Less(sorted[0], name) then [sorted[0]] + InsertName(sorted[1..], name)
    else [name] + sorted
  }

  /** `labels.sort()`. */
  function SortNames(names: seq<Name>): seq<Name> {
    if names == [] then [] else InsertName(SortNames(names[1..]), names[0])
  }

  lemma {:induction false} InsertNameSpec(sorted: seq<Name>, name: Name)
    ensures multiset(InsertName(sorted, name)) == multiset(sorted) + multiset{name}
    ensures |InsertName(sorted, name)| == |sorted| + 1
  {
    if sorted != [] && Less(sorted[0], name) {
      InsertNameSpec(sorted[1..], name);
      assert sorted == [sorted[0]] + sorted[1..];
    }
  }

  lemma {:induction false} SortNamesPermutes(names: seq<Name>)
    ensures multiset(SortNames(names)) == multiset(names)
    ensures |SortNames(names)| == |names|
  {
    if names != [] {
      SortNamesPermutes(names[1..]);
      InsertNameSpec(SortNames(names[1..]), names[0]);
      assert names == [names[0]] + names[1..];
    }
  }

  ghost predicate Ascending(names: seq<Name>) {
    forall i, j :: 0 <= i < j < |names| ==> AtMost(names[i], names[j])
  }

  /** The labels come out in byte order. */
  lemma {:induction false} SortNamesAscend(names: seq<Name>)
    ensures Ascending(SortNames(names))
  {
    if names != [] {
      SortNamesAscend(names[1..]);
      InsertAscends(SortNames(names[1..]), names[0]);
    }
  }

  lemma {:induction false} InsertAscends(sorted: seq<Name>, name: Name)
    requires Ascending(sorted)
    ensures Ascending(InsertName(sorted, name))
  {
    hide Less;
    if sorted != [] {
      LessTotal(sorted[0], name);
      var rest := InsertName(sorted[1..], name);
      if Less(sorted[0], name) {
        InsertAscends(sorted[1..], name);
        forall i | 0 <= i < |rest| ensures AtMost(sorted[0], rest[i]) {
          InsertedFrom(sorted[1..], name, rest[i]);
        }
      } else {
        forall i | 0 <= i < |sorted| ensures AtMost(name, sorted[i]) {
          AtMostTransitive(name, sorted[0], sorted[i]);
        }
      }
    }
  }

  lemma InsertedFrom(sorted: seq<Name>, name: Name, x: Name)
    requires x in InsertName(sorted, name)
    ensures x == name || x in sorted
  {
    InsertNameSpec(sorted, name);
    assert x in multiset(InsertName(sorted, name));
  }

  lemma AtMostTransitive(a: Name, b: Name, c: Name)
    requires AtMost(a, b) && AtMost(b, c)
    ensures AtMost(a, c)
  {
    hide Less;
    if a != b && b != c {
      LessTransitive(a, b, c);
    }
  }

  /** A list is free of repeats exactly when no element occurs twice. */
  lemma {:induction false} NoDupMultiset(s: seq<Name>)
    ensures NoDup(s) <==> forall x: Name :: multiset(s)[x] <= 1
  {
    if s != [] {
      var init, last := s[..|s| - 1], s[|s| - 1];
      assert s == init + [last];
      NoDupMultiset(init);
      assert multiset(s)[last] == multiset(init)[last] + 1;
      if NoDup(s) {
        assert last !in init;
        assert multiset(init)[last] == 0;
      } else if NoDup(init) {
        assert last in init;
      } else {
        var x: Name :| multiset(init)[x] > 1;
        assert multiset(s)[x] > 1;
      }
    }
  }

  /** The label counters after one increment for each entry of `labels`. */
  ghost function CountLabels(meta: Meta, labels: seq<Name>): Meta {
    if labels == [] then meta
    else
      var m, l := CountLabels(meta, labels[..|labels| - 1]), LabelCount(labels[|labels| - 1]);
      m[l := Word((Counter(m, l) + 1) % U64_LIMIT)]
  }

  /** Each label's counter stands at its nodes plus its occurrences in `labels`. */
  ghost predicate CountedWith(meta: Meta, nodes: map<u64, NodeRecord>, labels: seq<Name>) {
    forall l: Name :: CounterIs(meta, LabelCount(l), |NodesWith(nodes, l)| + multiset(labels)[l])
  }

  ghost predicate SameElsewhere(meta: Meta, meta': Meta) {
    forall k: MetaKey :: !k.LabelCount? ==> (k in meta' <==> k in meta) && (k in meta' ==> meta'[k] == meta[k])
  }

  ghost predicate RoomFor(nodes: map<u64, NodeRecord>, labels: seq<Name>) {
    forall l: Name :: |NodesWith(nodes, l)| + multiset(labels)[l] < U64_LIMIT
  }

  lemma {:induction false} CountLabelsSpec(meta: Meta, nodes: map<u64, NodeRecord>, labels: seq<Name>)
    requires LabelCountsOk(meta, nodes) && RoomFor(nodes, labels)
    ensures CountedWith(CountLabels(meta, labels), nodes, labels) && SameElsewhere(meta, CountLabels(meta, labels))
    decreases |labels|
  {
    hide NodesWith, Counter, Word, RoomFor, CountedWith, SameElsewhere, LabelCountsOk;
    if labels == [] {
      NothingCounted(meta, nodes);
    } else {
      var init, last := labels[..|labels| - 1], labels[|labels| - 1];
      assert labels == init + [last];
      RoomForPrefix(nodes, labels, |labels| - 1);
      CountLabelsSpec(meta, nodes, init);
      CountOneMore(CountLabels(meta, init), nodes, init, last);
      ElsewhereKept(meta, CountLabels(meta, init), last,
                    Word((Counter(CountLabels(meta, init), LabelCount(last)) + 1) % U64_LIMIT));
    }
  }

  lemma NothingCounted(meta: Meta, nodes: map<u64, NodeRecord>)
    requires LabelCountsOk(meta, nodes)
    ensures CountedWith(meta, nodes, []) && SameElsewhere(meta, meta)
  {
    hide NodesWith;
    forall l: Name ensures CounterIs(meta, LabelCount(l), |NodesWith(nodes, l)| + multiset([])[l]) {
      assert CounterIs(meta, LabelCount(l), |NodesWith(nodes, l)|);
    }
  }

  lemma ElsewhereKept(meta: Meta, m: Meta, l: Name, w: Key)
    requires SameElsewhere(meta, m)
    ensures SameElsewhere(meta, m[LabelCount(l) := w])
  {
  }

  lemma CountOneMore(m: Meta, nodes: map<u64, NodeRecord>, labels: seq<Name>, last: Name)
    requires CountedWith(m, nodes, labels) && RoomFor(nodes, labels + [last])
    ensures Counter(m, LabelCount(last)) + 1 < U64_LIMIT
    ensures CountedWith(m[LabelCount(last) := Word(Counter(m, LabelCount(last)) + 1)], nodes, labels + [last])
  {
    hide NodesWith, Counter, Word;
    var all := labels + [last];
    var after := m[LabelCount(last) := Word((Counter(m, LabelCount(last)) + 1) % U64_LIMIT)];
    var n := |NodesWith(nodes, last)| + multiset(labels)[last];
    assert CounterIs(m, LabelCount(last), n);
    CounterOfIs(m, LabelCount(last), n);
    assert |NodesWith(nodes, last)| + multiset(all)[last] < U64_LIMIT;
    assert multiset(all)[last] == multiset(labels)[last] + 1;
    forall l: Name ensures CounterIs(after, LabelCount(l), |NodesWith(nodes, l)| + multiset(all)[l]) {
      assert CounterIs(m, LabelCount(l), |NodesWith(nodes, l)| + multiset(labels)[l]);
    }
  }

  lemma NodesWithInsert(nodes: map<u64, NodeRecord>, id: u64, record: NodeRecord, l: Name)
    requires id !in nodes
    ensures NodesWith(nodes[id := record], l) == NodesWith(nodes, l) + (if l in record.labels then {id} else {})
    ensures |NodesWith(nodes[id := record], l)| == |NodesWith(nodes, l)| + (if l in record.labels then 1 else 0)
  {
  }

  /** Counting every entry of a new node's label list keeps the counters right exactly when the
      list names no label twice. */
  lemma CountersAfterCreate(meta: Meta, nodes: map<u64, NodeRecord>, id: u64, record: NodeRecord)
    requires LabelCountsOk(meta, nodes) && id !in nodes
    requires RoomFor(nodes, record.labels)
    ensures LabelCountsOk(CountLabels(meta, record.labels), nodes[id := record]) <==> NoDup(record.labels)
  {
    hide NodesWith, CountLabels, NoDup;
    var after, nodes' := CountLabels(meta, record.labels), nodes[id := record];
    CountLabelsSpec(meta, nodes, record.labels);
    NoDupMultiset(record.labels);
    forall l: Name
      ensures CounterIs(after, LabelCount(l), |NodesWith(nodes', l)|) <==> multiset(record.labels)[l] <= 1
    {
      NodesWithInsert(nodes, id, record, l);
      assert CounterIs(after, LabelCount(l), |NodesWith(nodes, l)| + multiset(record.labels)[l]);
      SameCounter(after, LabelCount(l), |NodesWith(nodes, l)| + multiset(record.labels)[l], |NodesWith(nodes', l)|);
    }
  }

  /** The case: the first node of a file, created with the same label twice, is counted twice. */
  lemma RepeatedLabelMiscounts(id: u64, lbl: Name, props: Props)
    ensures !LabelCountsOk(CountLabels(map[], [lbl, lbl]), map[id := NodeRecord([lbl, lbl], props)])
  {
    hide CountLabels;
    forall l: Name ensures NodesWith(map[], l) == {} {
    }
    forall l: Name ensures multiset([lbl, lbl])[l] <= 2 {
    }
    assert map[][id := NodeRecord([lbl, lbl], props)] == map[id := NodeRecord([lbl, lbl], props)];
    CountersAfterCreate(map[], map[], id, NodeRecord([lbl, lbl], props));
    assert [lbl, lbl][0] == [lbl, lbl][1];
  }

  lemma SameCounter(meta: Meta, key: MetaKey, m: nat, n: nat)
    requires CounterIs(meta, key, m) && n < U64_LIMIT
    ensures CounterIs(meta, key, n) <==> m == n
  {
    if CounterIs(meta, key, n) {
      CounterOfIs(meta, key, m);
      CounterOfIs(meta, key, n);
    }
  }

  // ---------------------------------------------------------------- create

  /** The metadata that node operations leave alone. */
  function EdgeSide(meta: Meta): Meta {
    map k | k in meta && (k.EdgeTypeCount? || k.NextEdgeSeq? || k.SchemaVersion?) :: meta[k]
  }

  ghost predicate CreateNodePost(rows: Table<NodeRow>, meta: Meta, nodes: map<u64, NodeRecord>,
                                 rows': Table<NodeRow>, meta': Meta, nodes': map<u64, NodeRecord>,
                                 labels: seq<Name>, props: Props, r: Result<u64>)
  {
    if !(forall i :: 0 <= i < |labels| ==> ValidName(labels[i])) || !ValidKeys(props) then
      r == Err(InvalidName) && rows' == rows && meta' == meta && nodes' == nodes
    else if NextNode(meta) + 1 == U64_LIMIT then
      r == Err(SpaceExhausted) && rows' == rows && meta' == meta && nodes' == nodes
    else
      var id, record := NextNode(meta), NodeRecord(SortNames(labels), props);
      && r == Ok(id) && id !in nodes
      && nodes' == nodes[id := record]
      && NodeRowsOk(rows', nodes') && IdsOk(meta', nodes') && NextNode(meta') == id + 1
      && (LabelCountsOk(meta', nodes') <==> NoDup(labels))
      && (NoDup(labels) ==> RecordsOk(nodes'))
  }

  /** `put_node`. */
  method PutNode(conn: Connection, id: u64, record: NodeRecord)
    requires NodeRowsOk(conn.nodes, conn.nodeSet)
    modifies conn`nodes, conn`nodeSet
    ensures conn.nodeSet == old(conn.nodeSet)[id := record] && NodeRowsOk(conn.nodes, conn.nodeSet)
  {
    NodeRowWritten(conn.nodes, conn.nodeSet, id, record);
    conn.nodes := conn.nodes[Word(id) := NodeRow(JoinLabels(record.labels), record)];
    conn.nodeSet := conn.nodeSet[id := record];
  }

  lemma NodeRowWritten(t: Table<NodeRow>, nodes: map<u64, NodeRecord>, id: u64, record: NodeRecord)
    requires NodeRowsOk(t, nodes)
    ensures NodeRowsOk(t[Word(id) := NodeRow(JoinLabels(record.labels), record)], nodes[id := record])
  {
    hide JoinLabels, Word, FromWord;
    var t', nodes' := t[Word(id) := NodeRow(JoinLabels(record.labels), record)], nodes[id := record];
    WordRoundTrip(id);
    forall i | i in nodes' ensures HasNodeRow(t', i, nodes'[i]) {
      WordRoundTrip(i);
      assert i != id ==> HasNodeRow(t, i, nodes[i]);
    }
    forall k | k in t' ensures NodeKey(k, nodes'.Keys) {
      assert k in t ==> NodeKey(k, nodes.Keys);
    }
  }

  method CountNewLabels(conn: Connection, labels: seq<Name>, ghost nodes: map<u64, NodeRecord>)
    requires LabelCountsOk(conn.meta, nodes) && RoomFor(nodes, labels)
    modifies conn`meta
    ensures conn.meta == CountLabels(old(conn.meta), labels)
  {
    hide NodesWith, LabelCountsOk, RoomFor, CountedWith, SameElsewhere, Counter, Word;
    assert labels[..0] == [];
    for i := 0 to |labels|
      invariant conn.meta == CountLabels(old(conn.meta), labels[..i])
    {
      TakeOneMore(labels, i, labels[i]);
      assert labels[..i + 1][..i] == labels[..i];
      RoomForPrefix(nodes, labels, i);
      CountLabelsSpec(old(conn.meta), nodes, labels[..i]);
      CountOneMore(conn.meta, nodes, labels[..i], labels[i]);
      IncrementCount(conn, LabelCount(labels[i]));
    }
    assert labels[..|labels|] == labels;
  }

  lemma RoomForPrefix(nodes: map<u64, NodeRecord>, labels: seq<Name>, i: nat)
    requires RoomFor(nodes, labels) && i < |labels|
    ensures RoomFor(nodes, labels[..i]) && RoomFor(nodes, labels[..i] + [labels[i]])
  {
    hide NodesWith;
    assert labels == (labels[..i] + [labels[i]]) + labels[i + 1..];
    forall l: Name
      ensures multiset(labels[..i])[l] <= multiset(labels)[l] &&
              multiset(labels[..i] + [labels[i]])[l] <= multiset(labels)[l]
    {
    }
  }

  /** `create_node`. Ids come from the counter and are never in use already. The label counters
      stay right exactly when no label is named twice. */
  method CreateNode(conn: Connection, labels: seq<Name>, props: Props) returns (r: Result<u64>)
    requires conn.NodesValid() && conn.LabelsCounted()
    // With repeated labels a counter could pass 64 bits; no list is that long.
    requires NoDup(labels) || NextNode(conn.meta) + |labels| < U64_LIMIT
    modifies conn`nodes, conn`nodeSet, conn`meta
    ensures CreateNodePost(old(conn.nodes), old(conn.meta), old(conn.nodeSet), conn.nodes, conn.meta, conn.nodeSet,
                           labels, props, r)
    ensures EdgeSide(conn.meta) == EdgeSide(old(conn.meta))
  {
    hide NodeRowsOk, RecordsOk, LabelCountsOk, SortNames, EdgeSide, ValidName, ValidKeys;
    if !(forall i :: 0 <= i < |labels| ==> ValidName(labels[i])) || !ValidKeys(props) {
      return Err(InvalidName);
    }
    ghost var meta, nodes := conn.meta, conn.nodeSet;
    var id := AllocateNodeId(conn);
    if id.Err? {
      return Err(id.error);
    }
    IdTaken(meta, nodes);
    var sorted := SortNames(labels);
    var record := NodeRecord(sorted, props);
    PutNode(conn, id.value, record);
    SortNamesPermutes(labels);
    CountersFit(meta, nodes, labels);
    ghost var mid := conn.meta;
    CountNewLabels(conn, sorted, nodes);
    CreatedNode(meta, nodes, mid, labels, props);
    return Ok(id.value);
  }

  lemma IdTaken(meta: Meta, nodes: map<u64, NodeRecord>)
    requires IdsOk(meta, nodes) && LabelCountsOk(meta, nodes) && NextNode(meta) + 1 < U64_LIMIT
    ensures var mid := meta[NextNodeId := Word(NextNode(meta) + 1)];
            LabelCountsOk(mid, nodes) && NextNode(mid) == NextNode(meta) + 1 && EdgeSide(mid) == EdgeSide(meta)
  {
    var mid := meta[NextNodeId := Word(NextNode(meta) + 1)];
    WordRoundTrip(NextNode(meta) + 1);
    forall l: Name ensures CounterIs(mid, LabelCount(l), |NodesWith(nodes, l)|) {
      assert CounterIs(meta, LabelCount(l), |NodesWith(nodes, l)|);
    }
  }

  lemma CountersFit(meta: Meta, nodes: map<u64, NodeRecord>, labels: seq<Name>)
    requires IdsOk(meta, nodes) && NextNode(meta) + 1 < U64_LIMIT
    requires NoDup(labels) || NextNode(meta) + |labels| < U64_LIMIT
    ensures RoomFor(nodes, labels)
  {
    NoDupMultiset(labels);
    forall l: Name ensures |NodesWith(nodes, l)| + multiset(labels)[l] < U64_LIMIT {
      NodeCountBound(NodesWith(nodes, l), NextNode(meta));
      OccurrencesBound(labels, l);
    }
  }

  lemma {:induction false} OccurrencesBound(s: seq<Name>, x: Name)
    ensures multiset(s)[x] <= |s|
  {
    if s != [] {
      OccurrencesBound(s[1..], x);
      assert s == [s[0]] + s[1..];
    }
  }

  lemma CreatedNode(meta: Meta, nodes: map<u64, NodeRecord>, mid: Meta, labels: seq<Name>, props: Props)
    requires IdsOk(meta, nodes) && RecordsOk(nodes) && NextNode(meta) + 1 < U64_LIMIT
    requires mid == meta[NextNodeId := Word(NextNode(meta) + 1)] && LabelCountsOk(mid, nodes)
    requires RoomFor(nodes, labels)
    ensures var id, record, after := NextNode(meta), NodeRecord(SortNames(labels), props),
            CountLabels(mid, SortNames(labels));
            && id !in nodes && IdsOk(after, nodes[id := record]) && NextNode(after) == id + 1
            && (LabelCountsOk(after, nodes[id := record]) <==> NoDup(labels))
            && (NoDup(labels) ==> RecordsOk(nodes[id := record]))
            && EdgeSide(after) == EdgeSide(meta)
  {
    hide NodesWith, SortNames, LabelCountsOk, CountLabels, RecordsOk, NoDup, Word, CountedWith;
    var id, sorted := NextNode(meta), SortNames(labels);
    var after := CountLabels(mid, sorted);
    NextIdRead(meta, id);
    SortNamesPermutes(labels);
    NoDupMultiset(labels);
    NoDupMultiset(sorted);
    assert RoomFor(nodes, sorted);
    CountLabelsSpec(mid, nodes, sorted);
    CountersAfterCreate(mid, nodes, id, NodeRecord(sorted, props));
    SortedRecordOk(nodes, id, labels, props);
    assert NextNodeId in after && after[NextNodeId] == mid[NextNodeId];
  }

  lemma NextIdRead(meta: Meta, id: u64)
    requires id + 1 < U64_LIMIT
    ensures NextNode(meta[NextNodeId := Word(id + 1)]) == id + 1
  {
    WordRoundTrip(id + 1);
  }

  lemma SortedRecordOk(nodes: map<u64, NodeRecord>, id: u64, labels: seq<Name>, props: Props)
    requires RecordsOk(nodes)
    ensures NoDup(labels) ==> RecordsOk(nodes[id := NodeRecord(SortNames(labels), props)])
  {
    hide SortNames;
    var sorted := SortNames(labels);
    SortNamesPermutes(labels);
    NoDupMultiset(labels);
    NoDupMultiset(sorted);
  }

  // ---------------------------------------------------------------- reads

  /** `get_node`. */
  method GetNode(conn: Connection, id: u64) returns (r: Result<NodeRecord>)
    requires NodeRowsOk(conn.nodes, conn.nodeSet)
    ensures r == if id in conn.nodeSet then Ok(conn.nodeSet[id]) else Err(NodeNotFound(id))
  {
    WordRoundTrip(id);
    NodeRowIff(conn.nodes, conn.nodeSet, id);
    if Word(id) in conn.nodes {
      return Ok(conn.nodes[Word(id)].record);
    }
    return Err(NodeNotFound(id));
  }

  lemma NodeRowIff(t: Table<NodeRow>, nodes: map<u64, NodeRecord>, id: u64)
    requires NodeRowsOk(t, nodes)
    ensures Word(id) in t <==> id in nodes
    ensures id in nodes ==> t[Word(id)].record == nodes[id]
  {
    WordRoundTrip(id);
    if id in nodes {
      assert HasNodeRow(t, id, nodes[id]);
    }
    if Word(id) in t {
      assert NodeKey(Word(id), nodes.Keys);
    }
  }

  /** `node_exists`. */
  method NodeExists(conn: Connection, id: u64) returns (r: bool)
    requires NodeRowsOk(conn.nodes, conn.nodeSet)
    ensures r <==> id in conn.nodeSet
  {
    NodeRowIff(conn.nodes, conn.nodeSet, id);
    return Word(id) in conn.nodes;
  }

  // ---------------------------------------------------------------- property and label writes

  /** Replaces the record of an existing node; the label counters are the caller's business. */
  method ReplaceRecord(conn: Connection, id: u64, record: NodeRecord)
    requires conn.NodesValid() && id in conn.nodeSet
    requires NoDup(record.labels)
    modifies conn`nodes, conn`nodeSet
    ensures conn.NodesValid() && conn.nodeSet == old(conn.nodeSet)[id := record]
  {
    hide NodeRowsOk;
    PutNode(conn, id, record);
  }

  lemma SameLabelsSameCounts(meta: Meta, nodes: map<u64, NodeRecord>, id: u64, record: NodeRecord)
    requires LabelCountsOk(meta, nodes) && id in nodes && record.labels == nodes[id].labels
    ensures LabelCountsOk(meta, nodes[id := record])
  {
    forall l: Name ensures CounterIs(meta, LabelCount(l), |NodesWith(nodes[id := record], l)|) {
      assert NodesWith(nodes[id := record], l) == NodesWith(nodes, l);
      assert CounterIs(meta, LabelCount(l), |NodesWith(nodes, l)|);
    }
  }

  /** `set_node_property`: a Null value removes the key. */
  method SetNodeProperty(conn: Connection, id: u64, key: Name, value: Value) returns (r: Result<()>)
    requires conn.NodesValid() && conn.LabelsCounted()
    modifies conn`nodes, conn`nodeSet
    ensures conn.NodesValid() && conn.LabelsCounted()
    ensures r == if !ValidName(key) then Err(InvalidName)
                 else if id !in old(conn.nodeSet) then Err(NodeNotFound(id)) else Ok(())
    ensures conn.nodeSet == if r.Err? then old(conn.nodeSet)
                            else var rec := old(conn.nodeSet)[id];
                                 old(conn.nodeSet)[id := rec.(props := WithProperty(rec.props, key, value))]
  {
    hide NodeRowsOk, LabelCountsOk, ValidName;
    if !ValidName(key) {
      return Err(InvalidName);
    }
    var node := GetNode(conn, id);
    if node.Err? {
      return Err(node.error);
    }
    var record := node.value.(props := WithProperty(node.value.props, key, value));
    SameLabelsSameCounts(conn.meta, conn.nodeSet, id, record);
    ReplaceRecord(conn, id, record);
    return Ok(());
  }

  /** `remove_node_property`. */
  method RemoveNodeProperty(conn: Connection, id: u64, key: Name) returns (r: Result<()>)
    requires conn.NodesValid() && conn.LabelsCounted()
    modifies conn`nodes, conn`nodeSet
    ensures conn.NodesValid() && conn.LabelsCounted()
    ensures r == if id !in old(conn.nodeSet) then Err(NodeNotFound(id)) else Ok(())
    ensures conn.nodeSet == if r.Err? then old(conn.nodeSet)
                            else var rec := old(conn.nodeSet)[id];
                                 old(conn.nodeSet)[id := rec.(props := rec.props - {key})]
  {
    hide NodeRowsOk, LabelCountsOk, ValidName;
    var node := GetNode(conn, id);
    if node.Err? {
      return Err(node.error);
    }
    var record := node.value.(props := node.value.props - {key});
    SameLabelsSameCounts(conn.meta, conn.nodeSet, id, record);
    ReplaceRecord(conn, id, record);
    return Ok(());
  }

  /** `set_all_node_properties`. */
  method SetAllNodeProperties(conn: Connection, id: u64, props: Props) returns (r: Result<()>)
    requires conn.NodesValid() && conn.LabelsCounted()
    modifies conn`nodes, conn`nodeSet
    ensures conn.NodesValid() && conn.LabelsCounted()
    ensures r == if id !in old(conn.nodeSet) then Err(NodeNotFound(id)) else Ok(())
    ensures conn.nodeSet == if r.Err? then old(conn.nodeSet)
                            else old(conn.nodeSet)[id := old(conn.nodeSet)[id].(props := props)]
  {
    hide NodeRowsOk, LabelCountsOk;
    var node := GetNode(conn, id);
    if node.Err? {
      return Err(node.error);
    }
    var record := node.value.(props := props);
    SameLabelsSameCounts(conn.meta, conn.nodeSet, id, record);
    ReplaceRecord(conn, id, record);
    return Ok(());
  }

  lemma LabelCountUpdate(before: Meta, nodes: map<u64, NodeRecord>, nodes': map<u64, NodeRecord>, lbl: Name)
    requires LabelCountsOk(before, nodes) && |NodesWith(nodes', lbl)| < U64_LIMIT
    requires forall l: Name :: l != lbl ==> NodesWith(nodes', l) == NodesWith(nodes, l)
    ensures LabelCountsOk(SetCounter(before, LabelCount(lbl), |NodesWith(nodes', lbl)|), nodes')
  {
    var after := SetCounter(before, LabelCount(lbl), |NodesWith(nodes', lbl)|);
    forall l: Name ensures CounterIs(after, LabelCount(l), |NodesWith(nodes', l)|) {
      assert CounterIs(before, LabelCount(l), |NodesWith(nodes, l)|);
    }
  }

  lemma OtherMetaKept(meta: Meta, lbl: Name, n: u64, nodes: map<u64, NodeRecord>)
    requires IdsOk(meta, nodes)
    ensures var after := SetCounter(meta, LabelCount(lbl), n);
            IdsOk(after, nodes) && NextNode(after) == NextNode(meta) && EdgeSide(after) == EdgeSide(meta)
  {
  }

  /** The record with one label more, or one less. */
  function WithLabel(record: NodeRecord, lbl: Name): NodeRecord {
    if lbl in record.labels then record else record.(labels := SortNames(record.labels + [lbl]))
  }

  function WithoutLabel(record: NodeRecord, lbl: Name): NodeRecord {
    if lbl in record.labels then record.(labels := Retain(record.labels, lbl)) else record
  }

  lemma LabelSets(record: NodeRecord, lbl: Name)
    requires NoDup(record.labels)
    ensures Elems(WithLabel(record, lbl).labels) == Elems(record.labels) + {lbl} && NoDup(WithLabel(record, lbl).labels)
    ensures Elems(WithoutLabel(record, lbl).labels) == Elems(record.labels) - {lbl} &&
            NoDup(WithoutLabel(record, lbl).labels)
    ensures WithLabel(record, lbl).props == record.props == WithoutLabel(record, lbl).props
  {
    hide SortNames, Retain;
    if lbl in record.labels {
      RetainSpec(record.labels, lbl);
    } else {
      SortedWithLabel(record.labels, lbl);
    }
  }

  /** `add_node_label`: no change if the node carries it already. */
  method AddNodeLabel(conn: Connection, id: u64, lbl: Name) returns (r: Result<()>)
    requires conn.NodesValid() && conn.LabelsCounted()
    modifies conn`nodes, conn`nodeSet, conn`meta
    ensures conn.NodesValid() && conn.LabelsCounted() && EdgeSide(conn.meta) == EdgeSide(old(conn.meta))
    ensures r == if id !in old(conn.nodeSet) then Err(NodeNotFound(id)) else Ok(())
    ensures conn.nodeSet == if r.Err? then old(conn.nodeSet)
                            else old(conn.nodeSet)[id := WithLabel(old(conn.nodeSet)[id], lbl)]
    ensures NextNode(conn.meta) == NextNode(old(conn.meta))
  {
    hide NodeRowsOk, LabelCountsOk, ValidName, EdgeSide, SortNames, NodesWith, IdsOk, SetCounter, Counter;
    var node := GetNode(conn, id);
    if node.Err? {
      return Err(node.error);
    }
    if lbl in node.value.labels {
      assert conn.nodeSet[id := conn.nodeSet[id]] == conn.nodeSet;
      return Ok(());
    }
    var record := node.value.(labels := SortNames(node.value.labels + [lbl]));
    AddedLabel(conn.meta, conn.nodeSet, id, lbl);
    OtherMetaKept(conn.meta, lbl, Counter(conn.meta, LabelCount(lbl)) + 1, conn.nodeSet);
    ReplaceRecord(conn, id, record);
    IncrementCount(conn, LabelCount(lbl));
    KeysKeepIds(conn.meta, old(conn.nodeSet), conn.nodeSet);
    return Ok(());
  }

  lemma KeysKeepIds(meta: Meta, nodes: map<u64, NodeRecord>, nodes': map<u64, NodeRecord>)
    requires IdsOk(meta, nodes) && nodes'.Keys == nodes.Keys
    ensures IdsOk(meta, nodes')
  {
  }

  lemma AddedLabel(meta: Meta, nodes: map<u64, NodeRecord>, id: u64, lbl: Name)
    requires IdsOk(meta, nodes) && LabelCountsOk(meta, nodes) && RecordsOk(nodes)
    requires id in nodes && lbl !in nodes[id].labels
    ensures var record := nodes[id].(labels := SortNames(nodes[id].labels + [lbl]));
            && NoDup(record.labels)
            && Elems(record.labels) == Elems(nodes[id].labels) + {lbl}
            && Counter(meta, LabelCount(lbl)) + 1 < U64_LIMIT
            && LabelCountsOk(SetCounter(meta, LabelCount(lbl), Counter(meta, LabelCount(lbl)) + 1), nodes[id := record])
  {
    hide SortNames, NodesWith, CounterIs, LabelCountsOk, SetCounter, NoDup, Elems;
    var record := nodes[id].(labels := SortNames(nodes[id].labels + [lbl]));
    SortedWithLabel(nodes[id].labels, lbl);
    var nodes' := nodes[id := record];
    forall l: Name ensures NodesWith(nodes', l) == NodesWith(nodes, l) + (if l == lbl then {id} else {}) {
      CarriersAfterChange(nodes, id, record, l);
    }
    assert id !in NodesWith(nodes, lbl) by { CarriersAre(nodes, id, lbl); }
    CountOf(meta, nodes, lbl);
    CarriersBelow(meta, nodes', lbl);
    LabelCountUpdate(meta, nodes, nodes', lbl);
  }

  lemma SortedWithLabel(labels: seq<Name>, lbl: Name)
    requires NoDup(labels) && lbl !in labels
    ensures var sorted := SortNames(labels + [lbl]);
            NoDup(sorted) && Elems(sorted) == Elems(labels) + {lbl}
  {
    hide SortNames;
    var all := labels + [lbl];
    SortNamesPermutes(all);
    NoDupMultiset(all);
    NoDupMultiset(SortNames(all));
    forall l ensures l in SortNames(all) <==> l in all {
      assert l in multiset(SortNames(all)) <==> l in multiset(all);
    }
  }

  lemma CarriersAre(nodes: map<u64, NodeRecord>, id: u64, l: Name)
    requires id in nodes
    ensures id in NodesWith(nodes, l) <==> l in nodes[id].labels
  {
  }

  lemma CarriersAfterChange(nodes: map<u64, NodeRecord>, id: u64, record: NodeRecord, l: Name)
    requires id in nodes
    ensures NodesWith(nodes[id := record], l) == NodesWith(nodes, l) - {id} +
            (if l in Elems(record.labels) then {id} else {})
    ensures id in NodesWith(nodes, l) <==> l in Elems(nodes[id].labels)
  {
  }

  lemma CountOf(meta: Meta, nodes: map<u64, NodeRecord>, l: Name)
    requires LabelCountsOk(meta, nodes)
    ensures Counter(meta, LabelCount(l)) == |NodesWith(nodes, l)|
  {
    hide NodesWith;
    assert CounterIs(meta, LabelCount(l), |NodesWith(nodes, l)|);
    CounterOfIs(meta, LabelCount(l), |NodesWith(nodes, l)|);
  }

  lemma CarriersBelow(meta: Meta, nodes: map<u64, NodeRecord>, l: Name)
    requires IdsOk(meta, nodes)
    ensures |NodesWith(nodes, l)| < U64_LIMIT
  {
    NodeCountBound(NodesWith(nodes, l), NextNode(meta));
  }

  /** `remove_node_label`: no change if the node does not carry it. */
  method RemoveNodeLabel(conn: Connection, id: u64, lbl: Name) returns (r: Result<()>)
    requires conn.NodesValid() && conn.LabelsCounted()
    modifies conn`nodes, conn`nodeSet, conn`meta
    ensures conn.NodesValid() && conn.LabelsCounted() && EdgeSide(conn.meta) == EdgeSide(old(conn.meta))
    ensures r == if id !in old(conn.nodeSet) then Err(NodeNotFound(id)) else Ok(())
    ensures conn.nodeSet == if r.Err? then old(conn.nodeSet)
                            else old(conn.nodeSet)[id := WithoutLabel(old(conn.nodeSet)[id], lbl)]
    ensures NextNode(conn.meta) == NextNode(old(conn.meta))
  {
    hide NodeRowsOk, LabelCountsOk, ValidName, EdgeSide, NodesWith, IdsOk, SetCounter, Counter, Retain,
         SaturatingSub;
    var node := GetNode(conn, id);
    if node.Err? {
      return Err(node.error);
    }
    if lbl !in node.value.labels {
      assert conn.nodeSet[id := conn.nodeSet[id]] == conn.nodeSet;
      return Ok(());
    }
    var record := node.value.(labels := Retain(node.value.labels, lbl));
    RemovedLabel(conn.meta, conn.nodeSet, id, lbl);
    OtherMetaKept(conn.meta, lbl, SaturatingSub(Counter(conn.meta, LabelCount(lbl)), 1), conn.nodeSet);
    ReplaceRecord(conn, id, record);
    DecrementCountBy(conn, LabelCount(lbl), 1);
    KeysKeepIds(conn.meta, old(conn.nodeSet), conn.nodeSet);
    return Ok(());
  }

  /** `labels.retain(|l| l != lbl)`. */
  function Retain(labels: seq<Name>, lbl: Name): seq<Name> {
    if labels == [] then []
    else
      var init := Retain(labels[..|labels| - 1], lbl);
      if labels[|labels| - 1] == lbl then init else init + [labels[|labels| - 1]]
  }

  lemma {:induction false} RetainAscends(labels: seq<Name>, lbl: Name)
    requires Ascending(labels)
    ensures Ascending(Retain(labels, lbl)) && forall x :: x in Retain(labels, lbl) ==> x in labels
  {
    hide Less, AtMost;
    if labels != [] {
      var init, last := labels[..|labels| - 1], labels[|labels| - 1];
      RetainAscends(init, lbl);
      assert forall x :: x in init ==> AtMost(x, last);
    }
  }

  lemma {:induction false} RetainSpec(labels: seq<Name>, lbl: Name)
    requires NoDup(labels)
    ensures NoDup(Retain(labels, lbl)) && Elems(Retain(labels, lbl)) == Elems(labels) - {lbl}
  {
    if labels != [] {
      var init, last := labels[..|labels| - 1], labels[|labels| - 1];
      RetainSpec(init, lbl);
      assert labels == init + [last];
      ElemsConcat(init, [last]);
      ElemsSingle(last);
      assert last !in Elems(init);
      if last != lbl {
        ElemsConcat(Retain(init, lbl), [last]);
        NoDupConcat(Retain(init, lbl), [last]);
      }
    }
  }

  lemma RemovedLabel(meta: Meta, nodes: map<u64, NodeRecord>, id: u64, lbl: Name)
    requires IdsOk(meta, nodes) && LabelCountsOk(meta, nodes) && RecordsOk(nodes)
    requires id in nodes && lbl in nodes[id].labels
    ensures var record := nodes[id].(labels := Retain(nodes[id].labels, lbl));
            && NoDup(record.labels)
            && Elems(record.labels) == Elems(nodes[id].labels) - {lbl}
            && LabelCountsOk(SetCounter(meta, LabelCount(lbl), SaturatingSub(Counter(meta, LabelCount(lbl)), 1)),
                nodes[id := record])
  {
    hide Retain;
    var record := nodes[id].(labels := Retain(nodes[id].labels, lbl));
    RetainSpec(nodes[id].labels, lbl);
    forall l ensures l in record.labels <==> l in nodes[id].labels && l != lbl {
      assert l in Elems(record.labels) <==> l in Elems(nodes[id].labels) - {lbl};
    }
    var nodes' := nodes[id := record];
    forall l: Name | l != lbl ensures NodesWith(nodes', l) == NodesWith(nodes, l) {
    }
    assert id in NodesWith(nodes, lbl);
    assert NodesWith(nodes', lbl) == NodesWith(nodes, lbl) - {id};
    assert CounterIs(meta, LabelCount(lbl), |NodesWith(nodes, lbl)|);
    CounterOfIs(meta, LabelCount(lbl), |NodesWith(nodes, lbl)|);
    LabelCountUpdate(meta, nodes, nodes', lbl);
  }
}
