/** The label scan (src/storage/node.rs:224-274). It matches the label column with SQL `LIKE`. */
module LabelScan {
  import opened Prelude
  import opened Bytes
  import opened Kv
  import opened Graph
  import opened Db
  import opened Patterns

  /** The nodes a scan for `lbl` returns; the empty label means all nodes. */
  function Scanned(nodes: map<u64, NodeRecord>, lbl: Name): set<u64> {
    set id | id in nodes && (lbl == [] || ColumnMatches(JoinLabels(nodes[id].labels), lbl))
  }

  /** Every node that carries the label is returned, whatever characters it has. */
  lemma CarriersScanned(nodes: map<u64, NodeRecord>, lbl: Name)
    ensures NodesWith(nodes, lbl) <= Scanned(nodes, lbl)
  {
    hide ColumnMatches, Like, JoinLabels;
    forall id | id in NodesWith(nodes, lbl) && lbl != [] ensures id in Scanned(nodes, lbl) {
      var labels := nodes[id].labels;
      var k :| 0 <= k < |labels| && labels[k] == lbl;
      RunOfOne(labels, k);
      LikeSelf(lbl);
      RunMatches(labels, lbl, k, k + 1);
    }
  }

  /** The other direction fails: a scan for "A_B" also returns a node labelled "AxB", a scan for
      "ab" one labelled "AB", and a scan for "A_B" one that carries "A" and "B". */
  lemma ScanReturnsOthers()
    ensures ColumnMatches(JoinLabels([[65, 120, 66]]), [65, 95, 66])
    ensures ColumnMatches(JoinLabels([[65, 66]]), [97, 98])
    ensures ColumnMatches(JoinLabels([[65], [66]]), [65, 95, 66])
  {
    hide ColumnMatches, Like;
    FittingRun([[65, 120, 66]], [65, 95, 66]);
    FittingRun([[65, 66]], [97, 98]);
    assert [[65], [66]][1..] == [[66]];
    assert JoinLabels([[65], [66]]) == [65, 58, 66];
    FittingRun([[65], [66]], [65, 95, 66]);
  }

  lemma FittingRun(labels: seq<Name>, lbl: Name)
    requires lbl != [] && 37 !in lbl && Fits(lbl, JoinLabels(labels))
    ensures ColumnMatches(JoinLabels(labels), lbl)
  {
    hide ColumnMatches, JoinLabels;
    assert labels[0..|labels|] == labels;
    LikeFits(lbl, RunOf(labels, 0, |labels|));
    RunMatches(labels, lbl, 0, |labels|);
  }

  /** Asked for "%", which no node can carry, the scan returns every node. */
  lemma PercentScansAll(nodes: map<u64, NodeRecord>)
    ensures Scanned(nodes, [37]) == nodes.Keys
  {
    hide ColumnMatches, Like, JoinLabels;
    forall id | id in nodes ensures id in Scanned(nodes, [37]) {
      var labels := nodes[id].labels;
      AnyLike(RunOf(labels, 0, |labels|));
      RunMatches(labels, [37], 0, |labels|);
    }
  }

  /** A label with a colon would look in the column like two: "A:B" like "A" and "B", and a scan for "A" would
      return its node. `add_node_label` by itself checks no name; its callers pass labels of the grammar. */
  lemma UncheckedLabelReadsAsTwo()
    ensures JoinLabels([[65, 58, 66]]) == JoinLabels([[65], [66]]) && ColumnMatches(JoinLabels([[65, 58, 66]]), [65])
  {
    hide ColumnMatches, Like;
    assert [[65], [66]][1..] == [[66]];
    assert JoinLabels([[65], [66]]) == [65, 58, 66];
    LikeSelf([65]);
    RunOfOne([[65], [66]], 0);
    RunMatches([[65], [66]], [65], 0, 1);
  }

  type Listed = seq<(u64, NodeRecord)>

  function Ids(listed: Listed): (r: seq<u64>)
    ensures |r| == |listed| && forall i :: 0 <= i < |r| ==> r[i] == listed[i].0
  {
    seq(|listed|, i requires 0 <= i < |listed| => listed[i].0)
  }

  function Words(ids: seq<u64>): (r: seq<Key>)
    ensures |r| == |ids| && forall i :: 0 <= i < |r| ==> r[i] == Word(ids[i])
  {
    seq(|ids|, i requires 0 <= i < |ids| => Word(ids[i]))
  }

  /** A scan of the whole node table meets the nodes by id. */
  lemma NodeKeysInOrder(t: Table<NodeRow>, nodes: map<u64, NodeRecord>)
    requires NodeRowsOk(t, nodes)
    ensures SortedKeys(Extensions(t.Keys, [])) == Words(SortedWords(nodes.Keys))
  {
    hide JoinLabels, Word, FromWord, SortedWords, SortedKeys, NodeRowsOk, Less, Words;
    var ids, all := SortedWords(nodes.Keys), Extensions(t.Keys, []);
    var keys := Words(ids);
    forall i, j | 0 <= i < j < |keys| ensures Less(keys[i], keys[j]) {
      WordOrder(ids[i], ids[j]);
    }
    forall k | k in keys ensures k in all {
      var i :| 0 <= i < |keys| && keys[i] == k;
      assert ids[i] in Elems(ids);
      RowOfNode(t, nodes, ids[i]);
    }
    forall k | k in all ensures k in keys {
      NodeOfRow(t, nodes, k);
      assert FromWord(k) in Elems(ids);
      var i :| 0 <= i < |ids| && ids[i] == FromWord(k);
      assert keys[i] == k;
    }
    assert Elems(keys) == all;
    KeysSortedUnique(keys, SortedKeys(all));
  }

  lemma NodeOfRow(t: Table<NodeRow>, nodes: map<u64, NodeRecord>, k: Key)
    requires NodeRowsOk(t, nodes) && k in t
    ensures |k| == 8 && FromWord(k) in nodes && Word(FromWord(k)) == k
  {
    assert NodeKey(k, nodes.Keys);
    FromWordRoundTrip(k);
  }

  /** The hits among the first `i` nodes: in id order, with their records, all of them. */
  ghost predicate FoundSoFar(nodes: map<u64, NodeRecord>, lbl: Name, r: Listed, i: nat) {
    var ids := SortedWords(nodes.Keys);
    && i <= |ids|
    && StrictlySorted(Ids(r))
    && (forall k :: 0 <= k < |r| ==> r[k].0 in nodes && r[k].1 == nodes[r[k].0])
    && Elems(Ids(r)) == Elems(ids[..i]) * Scanned(nodes, lbl)
  }

  lemma FoundNext(nodes: map<u64, NodeRecord>, lbl: Name, r: Listed, i: nat, id: u64)
    requires FoundSoFar(nodes, lbl, r, i) && i < |SortedWords(nodes.Keys)| && id == SortedWords(nodes.Keys)[i] &&
             id in nodes
    ensures id in Scanned(nodes, lbl) ==> FoundSoFar(nodes, lbl, r + [(id, nodes[id])], i + 1)
    ensures id !in Scanned(nodes, lbl) ==> FoundSoFar(nodes, lbl, r, i + 1)
  {
    hide Scanned, SortedWords;
    var ids := SortedWords(nodes.Keys);
    TakeOneMore(ids, i, id);
    ElemsConcat(ids[..i], [id]);
    ElemsSingle(id);
    assert Ids(r + [(id, nodes[id])]) == Ids(r) + [id];
    ElemsConcat(Ids(r), [id]);
    assert forall k :: 0 <= k < |r| ==> Ids(r)[k] in Elems(Ids(r));
  }

  /** `find_nodes_by_label`: every node whose label column matches, once, in id order. */
  method FindNodesByLabel(conn: Connection, lbl: Name) returns (r: Listed)
    requires NodeRowsOk(conn.nodes, conn.nodeSet)
    ensures StrictlySorted(Ids(r)) && Elems(Ids(r)) == Scanned(conn.nodeSet, lbl)
    ensures forall i :: 0 <= i < |r| ==> r[i].0 in conn.nodeSet && r[i].1 == conn.nodeSet[r[i].0]
  {
    hide ColumnMatches, JoinLabels, SortedKeys, Word, FromWord, NodeRowsOk, SortedWords, FoundSoFar;
    var rows := ScanPrefix(conn.nodes, []);
    NodeKeysInOrder(conn.nodes, conn.nodeSet);
    ghost var ids := SortedWords(conn.nodeSet.Keys);
    r := [];
    NothingFound(conn.nodeSet, lbl);
    for i := 0 to |rows|
      invariant FoundSoFar(conn.nodeSet, lbl, r, i)
    {
      assert ids[i] in Elems(ids);
      RowOfNode(conn.nodes, conn.nodeSet, ids[i]);
      FoundNext(conn.nodeSet, lbl, r, i, ids[i]);
      if lbl == [] || ColumnMatches(rows[i].1.labelCol, lbl) {
        r := r + [(FromWord(rows[i].0), rows[i].1.record)];
      }
    }
    AllFound(conn.nodeSet, lbl, r);
  }

  lemma NothingFound(nodes: map<u64, NodeRecord>, lbl: Name)
    ensures FoundSoFar(nodes, lbl, [], 0)
  {
    hide Scanned;
  }

  lemma AllFound(nodes: map<u64, NodeRecord>, lbl: Name, r: Listed)
    requires FoundSoFar(nodes, lbl, r, |SortedWords(nodes.Keys)|)
    ensures StrictlySorted(Ids(r)) && Elems(Ids(r)) == Scanned(nodes, lbl)
    ensures forall i :: 0 <= i < |r| ==> r[i].0 in nodes && r[i].1 == nodes[r[i].0]
  {
    hide ColumnMatches;
    var ids := SortedWords(nodes.Keys);
    assert ids[..|ids|] == ids;
  }

  lemma RowOfNode(t: Table<NodeRow>, nodes: map<u64, NodeRecord>, id: u64)
    requires NodeRowsOk(t, nodes) && id in nodes
    ensures Word(id) in t && t[Word(id)] == NodeRow(JoinLabels(nodes[id].labels), nodes[id])
    ensures FromWord(Word(id)) == id
  {
    WordRoundTrip(id);
    assert HasNodeRow(t, id, nodes[id]);
  }
}
