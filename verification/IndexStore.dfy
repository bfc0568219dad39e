/** Index agreement: what node changes do to index tables, index creation, and lookup
    (src/storage/index.rs:109-291). */
module IndexStore {
  import opened Prelude
  import opened Bytes
  import opened Kv
  import opened Graph
  import opened Db
  import opened Edges
  import opened LabelScan
  import opened Patterns
  import opened Index

  // ---------------------------------------------------------------- one node's entries

  /** The entry of node `id` in the index, as the node stands. */
  ghost function Own(encode: Value -> Key, nodes: map<u64, NodeRecord>, d: IndexDef, id: u64): set<Key> {
    if id in nodes && d.lbl in nodes[id].labels then Entry(encode, nodes[id].props, d.props, id) else {}
  }

  predicate Ends(key: Key, id: u64) {
    |key| >= 8 && FromWord(key[|key| - 8..]) == id
  }

  lemma EntryEnds(encode: Value -> Key, props: Props, cols: seq<Name>, id: u64)
    ensures forall k :: k in Entry(encode, props, cols, id) ==> Ends(k, id)
  {
    if Covers(props, cols) {
      KeyShowsId(encode, Values(props, cols), id);
    }
  }

  lemma OwnIff(encode: Value -> Key, nodes: map<u64, NodeRecord>, d: IndexDef, key: Key, id: u64)
    ensures key in Own(encode, nodes, d, id) <==>
            Indexed(nodes, d, id) && key == CompositeKey(encode, Values(nodes[id].props, d.props), id)
  {
    hide CompositeKey;
  }

  /** The entries of an index that end in an id are the entry of that node: the trailing eight
      bytes keep nodes apart. */
  lemma IndexKeysById(encode: Value -> Key, nodes: map<u64, NodeRecord>, d: IndexDef, key: Key, id: u64)
    ensures key in Own(encode, nodes, d, id) <==> key in IndexKeys(encode, nodes, d) && Ends(key, id)
  {
    hide CompositeKey;
    OwnIff(encode, nodes, d, key, id);
    if key in Own(encode, nodes, d, id) {
      KeyShowsId(encode, Values(nodes[id].props, d.props), id);
    }
    if key in IndexKeys(encode, nodes, d) && Ends(key, id) {
      var i :| i in nodes && Indexed(nodes, d, i) && key == CompositeKey(encode, Values(nodes[i].props, d.props), i);
      KeyShowsId(encode, Values(nodes[i].props, d.props), i);
    }
  }

  lemma OwnOfKey(encode: Value -> Key, nodes: map<u64, NodeRecord>, d: IndexDef, key: Key)
    requires key in IndexKeys(encode, nodes, d)
    ensures |key| >= 8 && key in Own(encode, nodes, d, FromWord(key[|key| - 8..]))
  {
    hide CompositeKey;
    var i :| i in nodes && Indexed(nodes, d, i) && key == CompositeKey(encode, Values(nodes[i].props, d.props), i);
    KeyShowsId(encode, Values(nodes[i].props, d.props), i);
    OwnIff(encode, nodes, d, key, i);
  }

  ghost predicate SameButFor(nodes: map<u64, NodeRecord>, nodes': map<u64, NodeRecord>, id: u64) {
    nodes' - {id} == nodes - {id}
  }

  lemma OwnOfOthers(encode: Value -> Key, nodes: map<u64, NodeRecord>, nodes': map<u64, NodeRecord>, d: IndexDef,
                    id: u64, i: u64)
    requires SameButFor(nodes, nodes', id) && i != id
    ensures Own(encode, nodes', d, i) == Own(encode, nodes, d, i)
  {
    hide Entry;
    assert i in nodes' <==> i in nodes' - {id};
    assert i in nodes <==> i in nodes - {id};
    if i in nodes {
      assert nodes[i] == (nodes - {id})[i] == (nodes' - {id})[i];
    }
  }

  /** Taking a node's old entry out of its index and putting a new one in leaves the right table
      exactly when the new one is the node's own. */
  lemma TouchExact(encode: Value -> Key, nodes: map<u64, NodeRecord>, nodes': map<u64, NodeRecord>, d: IndexDef,
                   id: u64, added: set<Key>)
    requires SameButFor(nodes, nodes', id) && forall k :: k in added ==> Ends(k, id)
    ensures IndexKeys(encode, nodes, d) - Own(encode, nodes, d, id) + added == IndexKeys(encode, nodes', d) <==>
            added == Own(encode, nodes', d, id)
  {
    hide Own, IndexKeys, FromWord;
    var left, right := IndexKeys(encode, nodes, d) - Own(encode, nodes, d, id) + added, IndexKeys(encode, nodes', d);
    forall k ensures Ends(k, id) ==> (k in left <==> k in added) && (k in right <==> k in Own(encode, nodes', d, id))
      ensures !Ends(k, id) ==> (k in left <==> k in right)
      ensures k in Own(encode, nodes', d, id) ==> Ends(k, id)
    {
      IndexKeysById(encode, nodes, d, k, id);
      IndexKeysById(encode, nodes', d, k, id);
      if !Ends(k, id) {
        OtherKeysStay(encode, nodes, nodes', d, id, k);
      }
    }
    if left == right {
      forall k ensures k in added <==> k in Own(encode, nodes', d, id) {
      }
    }
  }

  lemma OtherKeysStay(encode: Value -> Key, nodes: map<u64, NodeRecord>, nodes': map<u64, NodeRecord>, d: IndexDef,
                      id: u64, k: Key)
    requires SameButFor(nodes, nodes', id) && !Ends(k, id)
    ensures k in IndexKeys(encode, nodes, d) <==> k in IndexKeys(encode, nodes', d)
  {
    hide Own, IndexKeys, SameButFor;
    if k in IndexKeys(encode, nodes, d) {
      OwnOfKey(encode, nodes, d, k);
      var i := FromWord(k[|k| - 8..]);
      OwnOfOthers(encode, nodes, nodes', d, id, i);
      IndexKeysById(encode, nodes', d, k, i);
    }
    if k in IndexKeys(encode, nodes', d) {
      OwnOfKey(encode, nodes', d, k);
      var i := FromWord(k[|k| - 8..]);
      OwnOfOthers(encode, nodes, nodes', d, id, i);
      IndexKeysById(encode, nodes, d, k, i);
    }
  }

  // ---------------------------------------------------------------- all indexes of a node

  /** Maintenance is told the labels the change matters to, and the entries that a node has under them
      are among the one it takes out and the one it puts in. */
  ghost predicate ToldRight(encode: Value -> Key, nodes: map<u64, NodeRecord>, nodes': map<u64, NodeRecord>,
                            defs: set<IndexDef>, labels: set<Name>, id: u64, before: Option<Props>, after: Props)
  {
    forall d :: d in defs ==>
      if d.lbl in labels then Own(encode, nodes, d, id) <= OldEntry(encode, before, d.props, id) +
          Entry(encode, after, d.props, id)
      else Own(encode, nodes', d, id) == Own(encode, nodes, d, id)
  }

  ghost predicate NewEntriesRight(encode: Value -> Key, nodes': map<u64, NodeRecord>, defs: set<IndexDef>,
                                  labels: set<Name>, id: u64, after: Props) {
    forall d :: d in defs && d.lbl in labels ==> Entry(encode, after, d.props, id) == Own(encode, nodes', d, id)
  }

  lemma TableTouched(tables: Tables, encode: Value -> Key, nodes: map<u64, NodeRecord>, nodes': map<u64, NodeRecord>,
                     defs: set<IndexDef>, labels: set<Name>, id: u64, before: Option<Props>, after: Props, d: IndexDef)
    requires HoldsIndex(tables, encode, nodes, d) && SameButFor(nodes, nodes', id) && d in defs
    requires ToldRight(encode, nodes, nodes', defs, labels, id, before, after)
    ensures HoldsIndex(TouchTables(tables, encode, labels, id, before, after), encode, nodes', d) <==>
            (d.lbl in labels ==> Entry(encode, after, d.props, id) == Own(encode, nodes', d, id))
  {
    hide TableName, DefOk, Own, IndexKeys, Entry, OldEntry, DefOfName, SameButFor, NameOk;
    NameIsOk(d);
    if d.lbl in labels {
      EntryEnds(encode, after, d.props, id);
      OnlyOwnRemoved(encode, nodes, d, id, before, after);
      TouchExact(encode, nodes, nodes', d, id, Entry(encode, after, d.props, id));
    } else {
      OwnEnds(encode, nodes, d, id);
      TouchExact(encode, nodes, nodes', d, id, Own(encode, nodes, d, id));
      OwnIsThere(encode, nodes, d, id);
    }
  }

  lemma OwnEnds(encode: Value -> Key, nodes: map<u64, NodeRecord>, d: IndexDef, id: u64)
    ensures forall k :: k in Own(encode, nodes, d, id) ==> Ends(k, id)
  {
    hide Entry;
    if id in nodes {
      EntryEnds(encode, nodes[id].props, d.props, id);
    }
  }

  lemma OwnIsThere(encode: Value -> Key, nodes: map<u64, NodeRecord>, d: IndexDef, id: u64)
    ensures IndexKeys(encode, nodes, d) - Own(encode, nodes, d, id) + Own(encode, nodes, d, id) ==
            IndexKeys(encode, nodes, d)
  {
    hide Own, IndexKeys, FromWord;
    forall k | k in Own(encode, nodes, d, id) ensures k in IndexKeys(encode, nodes, d) {
      IndexKeysById(encode, nodes, d, k, id);
    }
  }

  /** What maintenance takes out of an index, the entry it puts in aside, is what the node has there. */
  lemma OnlyOwnRemoved(encode: Value -> Key, nodes: map<u64, NodeRecord>, d: IndexDef, id: u64, before: Option<Props>,
                       after: Props)
    requires Own(encode, nodes, d, id) <= OldEntry(encode, before, d.props, id) + Entry(encode, after, d.props, id)
    ensures IndexKeys(encode, nodes, d) - OldEntry(encode, before, d.props, id) + Entry(encode, after, d.props, id) ==
            IndexKeys(encode, nodes, d) - Own(encode, nodes, d, id) + Entry(encode, after, d.props, id)
  {
    hide Own, IndexKeys, Entry, FromWord;
    forall k | k in OldEntry(encode, before, d.props, id) && k in IndexKeys(encode, nodes, d)
      ensures k in Own(encode, nodes, d, id)
    {
      EntryEnds(encode, before.value, d.props, id);
      IndexKeysById(encode, nodes, d, k, id);
    }
  }

  /** Index agreement after maintenance for one node: kept exactly when the new entries are right. */
  lemma IndexesTouched(tables: Tables, encode: Value -> Key, nodes: map<u64, NodeRecord>, nodes': map<u64, NodeRecord>,
                       defs: set<IndexDef>, labels: set<Name>, id: u64, before: Option<Props>, after: Props)
    requires IndexesOk(tables, encode, nodes, defs) && SameButFor(nodes, nodes', id)
    requires ToldRight(encode, nodes, nodes', defs, labels, id, before, after)
    ensures IndexesOk(TouchTables(tables, encode, labels, id, before, after), encode, nodes', defs) <==>
            NewEntriesRight(encode, nodes', defs, labels, id, after)
  {
    hide HoldsIndex, TouchTables, SameButFor, ToldRight, Own, Entry, NameOk, DefOfName;
    var tables' := TouchTables(tables, encode, labels, id, before, after);
    assert tables'.Keys == tables.Keys by { TouchedKeys(tables, encode, labels, id, before, after); }
    forall d | d in defs
      ensures HoldsIndex(tables', encode, nodes', d) <==>
              (d.lbl in labels ==> Entry(encode, after, d.props, id) == Own(encode, nodes', d, id))
    {
      TableTouched(tables, encode, nodes, nodes', defs, labels, id, before, after, d);
    }
  }

  lemma TouchedKeys(tables: Tables, encode: Value -> Key, labels: set<Name>, id: u64, before: Option<Props>,
                    after: Props)
    ensures TouchTables(tables, encode, labels, id, before, after).Keys == tables.Keys
  {
  }

  lemma IndexNamesOk(tables: Tables, encode: Value -> Key, nodes: map<u64, NodeRecord>, defs: set<IndexDef>)
    requires IndexesOk(tables, encode, nodes, defs)
    ensures NamesOk(tables)
    ensures forall d :: d in defs ==> d.props != []
  {
    hide NameOk, DefOfName;
    forall d | d in defs ensures d.props != [] {
      assert HoldsIndex(tables, encode, nodes, d);
    }
  }

  /** Creating a node, with entries for all its labels, keeps index agreement. */
  lemma IndexesAfterCreate(tables: Tables, encode: Value -> Key, nodes: map<u64, NodeRecord>, defs: set<IndexDef>,
                           id: u64, record: NodeRecord, labels: set<Name>)
    requires IndexesOk(tables, encode, nodes, defs) && id !in nodes && labels == Elems(record.labels)
    ensures IndexesOk(TouchTables(tables, encode, labels, id, None, record.props), encode, nodes[id := record], defs)
  {
    hide IndexesOk, TouchTables, Entry;
    var nodes' := nodes[id := record];
    assert nodes' - {id} == nodes - {id};
    IndexesTouched(tables, encode, nodes, nodes', defs, labels, id, None, record.props);
  }

  /** Deleting a node, with its entries removed for all its labels, keeps index agreement. */
  lemma IndexesAfterDelete(tables: Tables, encode: Value -> Key, nodes: map<u64, NodeRecord>, defs: set<IndexDef>,
                           id: u64)
    requires IndexesOk(tables, encode, nodes, defs) && id in nodes
    ensures IndexesOk(TouchTables(tables, encode, Elems(nodes[id].labels), id, Some(nodes[id].props), map[]), encode,
            nodes - {id}, defs)
  {
    hide IndexesOk, TouchTables, Entry;
    IndexNamesOk(tables, encode, nodes, defs);
    var nodes', labels := nodes - {id}, Elems(nodes[id].labels);
    assert nodes' - {id} == nodes - {id};
    forall d | d in defs ensures Entry(encode, map[], d.props, id) == {} {
      NoEntryOfNothing(encode, d.props, id);
    }
    IndexesTouched(tables, encode, nodes, nodes', defs, labels, id, Some(nodes[id].props), map[]);
  }

  lemma NoEntryOfNothing(encode: Value -> Key, cols: seq<Name>, id: u64)
    requires cols != []
    ensures Entry(encode, map[], cols, id) == {}
  {
    var none: Props := map[];
    assert cols[0] !in none;
  }

  /** A property change seen by maintenance as `told` while the record holds `stored`. */
  lemma IndexesAfterChange(tables: Tables, encode: Value -> Key, nodes: map<u64, NodeRecord>, defs: set<IndexDef>,
                           id: u64, stored: Props, told: Props)
    requires IndexesOk(tables, encode, nodes, defs) && id in nodes
    ensures IndexesOk(TouchTables(tables, encode, Elems(nodes[id].labels), id, Some(nodes[id].props), told), encode,
                      nodes[id := nodes[id].(props := stored)], defs) <==>
            forall d :: d in defs && d.lbl in nodes[id].labels ==>
              Entry(encode, told, d.props, id) == Entry(encode, stored, d.props, id)
  {
    hide IndexesOk, TouchTables, Entry;
    var nodes', labels := nodes[id := nodes[id].(props := stored)], Elems(nodes[id].labels);
    assert nodes' - {id} == nodes - {id};
    IndexesTouched(tables, encode, nodes, nodes', defs, labels, id, Some(nodes[id].props), told);
  }

  /** Labels added to a node: entries under all its labels are put in, those it had already among them. */
  lemma IndexesAfterLabels(tables: Tables, encode: Value -> Key, nodes: map<u64, NodeRecord>, defs: set<IndexDef>,
                           id: u64, record: NodeRecord)
    requires IndexesOk(tables, encode, nodes, defs) && id in nodes
    requires record.props == nodes[id].props && Elems(nodes[id].labels) <= Elems(record.labels)
    ensures IndexesOk(TouchTables(tables, encode, Elems(record.labels), id, None, record.props), encode,
            nodes[id := record], defs)
  {
    hide IndexesOk, TouchTables, Entry;
    var nodes' := nodes[id := record];
    assert nodes' - {id} == nodes - {id};
    assert forall l: Name :: l in nodes[id].labels ==> l in Elems(record.labels) by {
      assert forall l: Name :: l in nodes[id].labels ==> l in Elems(nodes[id].labels);
    }
    IndexesTouched(tables, encode, nodes, nodes', defs, Elems(record.labels), id, None, record.props);
  }

  /** A label taken from a node: its entries under that label are taken out, if it had any. */
  lemma IndexesAfterLabelCut(tables: Tables, encode: Value -> Key, nodes: map<u64, NodeRecord>, defs: set<IndexDef>,
                             id: u64, record: NodeRecord, lbl: Name)
    requires IndexesOk(tables, encode, nodes, defs) && id in nodes
    requires record.props == nodes[id].props && Elems(record.labels) == Elems(nodes[id].labels) - {lbl}
    ensures IndexesOk(TouchTables(tables, encode, {lbl}, id, Some(nodes[id].props), map[]), encode, nodes[id := record],
            defs)
  {
    hide IndexesOk, TouchTables, Entry;
    IndexNamesOk(tables, encode, nodes, defs);
    var nodes' := nodes[id := record];
    assert nodes' - {id} == nodes - {id};
    forall l: Name ensures l in record.labels <==> l in nodes[id].labels && l != lbl {
      assert l in Elems(record.labels) <==> l in Elems(nodes[id].labels) && l != lbl;
    }
    forall d | d in defs ensures Entry(encode, map[], d.props, id) == {} {
      NoEntryOfNothing(encode, d.props, id);
    }
    IndexesTouched(tables, encode, nodes, nodes', defs, {lbl}, id, Some(nodes[id].props), map[]);
  }

  /** Some index on a label of the node would give it an entry for a stored Null. */
  ghost predicate NullWouldBeIndexed(nodes: map<u64, NodeRecord>, defs: set<IndexDef>, id: u64, key: Name)
    requires id in nodes
  {
    exists d :: d in defs && d.lbl in nodes[id].labels && key in d.props &&
        Covers(nodes[id].props[key := Null], d.props)
  }

  lemma NullEntry(encode: Value -> Key, props: Props, key: Name, cols: seq<Name>, id: u64)
    ensures Entry(encode, props[key := Null], cols, id) == Entry(encode, props - {key}, cols, id) <==>
            !(key in cols && Covers(props[key := Null], cols))
  {
    hide CompositeKey;
    var told, stored := props[key := Null], props - {key};
    if key in cols {
      var i :| 0 <= i < |cols| && cols[i] == key;
      assert cols[i] !in stored;
    } else if Covers(told, cols) {
      assert Covers(stored, cols) by {
        assert forall i :: 0 <= i < |cols| ==> cols[i] != key && cols[i] in told;
      }
      assert Values(told, cols) == Values(stored, cols);
    } else {
      var i :| 0 <= i < |cols| && cols[i] !in told;
      assert cols[i] !in stored;
    }
  }

  /** Setting a property keeps index agreement exactly when the value is not Null or no index of
      the node's labels covers the key with all its other properties present. A Null leaves the
      record but not what maintenance is told. */
  lemma SetPropertyIndexes(tables: Tables, encode: Value -> Key, nodes: map<u64, NodeRecord>, defs: set<IndexDef>,
                           id: u64, key: Name, value: Value)
    requires IndexesOk(tables, encode, nodes, defs) && id in nodes
    ensures IndexesOk(TouchTables(tables, encode, Elems(nodes[id].labels), id, Some(nodes[id].props),
            nodes[id].props[key := value]),
                      encode, nodes[id := nodes[id].(props := WithProperty(nodes[id].props, key, value))], defs) <==>
            value != Null || !NullWouldBeIndexed(nodes, defs, id, key)
  {
    hide IndexesOk, TouchTables, Entry, Covers;
    var props := nodes[id].props;
    IndexesAfterChange(tables, encode, nodes, defs, id, WithProperty(props, key, value), props[key := value]);
    if value == Null {
      forall d | d in defs
        ensures Entry(encode, props[key := Null], d.props, id) == Entry(encode, props - {key}, d.props, id) <==>
                !(key in d.props && Covers(props[key := Null], d.props))
      {
        NullEntry(encode, props, key, d.props, id);
      }
    }
  }

  /** The failing case: a `Null` leaves an entry behind for a node that no longer has the property. */
  lemma NullLeavesEntry(encode: Value -> Key, id: u64)
    ensures var d, rec := IndexDef([65], [[97]]), NodeRecord([[65]], map[[97] := Bool(true)]);
            var nodes := map[id := rec];
            NullWouldBeIndexed(nodes, {d}, id, [97]) &&
                               Own(encode, nodes[id := rec.(props := WithProperty(rec.props, [97], Null))], d, id) == {}
  {
    var d, rec := IndexDef([65], [[97]]), NodeRecord([[65]], map[[97] := Bool(true)]);
    assert d.props[0] == [97] && [97] in d.props;
    assert Covers(rec.props[[97] := Null], d.props);
  }

  // ---------------------------------------------------------------- creating and dropping indexes

  /** The entries that the backfill writes: those of the scanned nodes. */
  ghost function Backfilled(encode: Value -> Key, nodes: map<u64, NodeRecord>, d: IndexDef): set<Key> {
    set id, k | id in Scanned(nodes, d.lbl) && id in nodes && k in Entry(encode, nodes[id].props, d.props, id) :: k
  }

  /** Every scanned node that would get an entry does carry the label. */
  ghost predicate ScanAgrees(nodes: map<u64, NodeRecord>, d: IndexDef) {
    forall id :: id in Scanned(nodes, d.lbl) && id in nodes && Covers(nodes[id].props, d.props) ==>
        d.lbl in nodes[id].labels
  }

  /** A new index starts out right exactly when the scan returns no other node that has all the
      covered properties. */
  lemma BackfillExact(encode: Value -> Key, nodes: map<u64, NodeRecord>, d: IndexDef)
    ensures Backfilled(encode, nodes, d) == IndexKeys(encode, nodes, d) <==> ScanAgrees(nodes, d)
  {
    hide Scanned, CompositeKey, Covers, FromWord;
    var filled, right := Backfilled(encode, nodes, d), IndexKeys(encode, nodes, d);
    forall k | k in right ensures k in filled {
      var i :| i in nodes && Indexed(nodes, d, i) && k == CompositeKey(encode, Values(nodes[i].props, d.props), i);
      CarriersScanned(nodes, d.lbl);
      assert i in NodesWith(nodes, d.lbl) && k in Entry(encode, nodes[i].props, d.props, i);
    }
    if filled == right {
      forall id | id in Scanned(nodes, d.lbl) && id in nodes &&
          Covers(nodes[id].props, d.props) ensures d.lbl in nodes[id].labels {
        var k := CompositeKey(encode, Values(nodes[id].props, d.props), id);
        assert k in Entry(encode, nodes[id].props, d.props, id) && k in filled;
        EntryEnds(encode, nodes[id].props, d.props, id);
        IndexKeysById(encode, nodes, d, k, id);
        OwnIff(encode, nodes, d, k, id);
      }
    }
    if ScanAgrees(nodes, d) {
      forall k | k in filled ensures k in right {
        var i :| i in Scanned(nodes, d.lbl) && i in nodes && k in Entry(encode, nodes[i].props, d.props, i);
        assert Indexed(nodes, d, i);
      }
    }
  }

  /** Labels that a scan for `lbl` takes for it: the same name in any case or, where `lbl` has a `_`, a stretch
      of labels that agrees with it in length and in all other characters. */
  ghost predicate TakenFor(labels: seq<Name>, lbl: Name) {
    if 95 in lbl then exists i, j :: 0 <= i < j <= |labels| && Fits(lbl, RunOf(labels, i, j))
    else exists k :: 0 <= k < |labels| && FoldName(labels[k]) == FoldName(lbl)
  }

  /** What the condition asks of the labels. */
  lemma ScanAgreesByLabels(nodes: map<u64, NodeRecord>, d: IndexDef)
    requires (forall id :: id in nodes ==> ColumnSafe(nodes[id].labels)) && ValidName(d.lbl)
    ensures ScanAgrees(nodes, d) <==>
            forall id :: id in nodes && Covers(nodes[id].props, d.props) && TakenFor(nodes[id].labels, d.lbl) ==>
                           d.lbl in nodes[id].labels
  {
    hide ColumnMatches, JoinLabels, Covers, TakenFor, ColumnSafe, ValidName;
    forall id | id in nodes ensures id in Scanned(nodes, d.lbl) <==> TakenFor(nodes[id].labels, d.lbl) {
      ScannedForLabels(nodes[id].labels, d.lbl);
    }
  }

  lemma ScannedForLabels(labels: seq<Name>, lbl: Name)
    requires ColumnSafe(labels) && ValidName(lbl)
    ensures lbl != [] && (ColumnMatches(JoinLabels(labels), lbl) <==> TakenFor(labels, lbl))
  {
    hide ColumnMatches, JoinLabels, FoldName, Fits, RunOf;
    assert 37 !in lbl by {
      assert forall k :: 0 <= k < |lbl| ==> NameByte(lbl[k]);
    }
    if 95 in lbl {
      NameMatches(labels, lbl);
    } else {
      PlainNameMatches(labels, lbl);
    }
  }

  /** The entries of the first `i` scanned nodes. */
  ghost function FilledFrom(encode: Value -> Key, listed: Listed, cols: seq<Name>, i: nat): set<Key>
    requires i <= |listed|
  {
    if i == 0 then {}
    else FilledFrom(encode, listed, cols, i - 1) + Entry(encode, listed[i - 1].1.props, cols, listed[i - 1].0)
  }

  lemma {:induction false} FilledIff(encode: Value -> Key, listed: Listed, cols: seq<Name>, i: nat, k: Key)
    requires i <= |listed|
    ensures k in FilledFrom(encode, listed, cols, i) <==>
            exists j :: 0 <= j < i && k in Entry(encode, listed[j].1.props, cols, listed[j].0)
  {
    hide Entry;
    if i > 0 {
      FilledIff(encode, listed, cols, i - 1, k);
    }
  }

  lemma FilledIsBackfilled(encode: Value -> Key, nodes: map<u64, NodeRecord>, d: IndexDef, listed: Listed)
    requires Elems(Ids(listed)) == Scanned(nodes, d.lbl)
    requires forall i :: 0 <= i < |listed| ==> listed[i].0 in nodes && listed[i].1 == nodes[listed[i].0]
    ensures FilledFrom(encode, listed, d.props, |listed|) == Backfilled(encode, nodes, d)
  {
    hide FilledFrom, Backfilled, Scanned;
    forall k ensures k in FilledFrom(encode, listed, d.props, |listed|) <==> k in Backfilled(encode, nodes, d) {
      FilledIff(encode, listed, d.props, |listed|, k);
      ListedOrScanned(encode, nodes, d, listed, k);
    }
  }

  lemma ListedOrScanned(encode: Value -> Key, nodes: map<u64, NodeRecord>, d: IndexDef, listed: Listed, k: Key)
    requires Elems(Ids(listed)) == Scanned(nodes, d.lbl)
    requires forall i :: 0 <= i < |listed| ==> listed[i].0 in nodes && listed[i].1 == nodes[listed[i].0]
    ensures (exists j :: 0 <= j < |listed| && k in Entry(encode, listed[j].1.props, d.props, listed[j].0)) <==>
            k in Backfilled(encode, nodes, d)
  {
    hide Scanned, Entry;
    var ids := Ids(listed);
    if j :| 0 <= j < |listed| && k in Entry(encode, listed[j].1.props, d.props, listed[j].0) {
      assert ids[j] in Elems(ids);
      assert k in Entry(encode, nodes[listed[j].0].props, d.props, listed[j].0);
    }
    if k in Backfilled(encode, nodes, d) {
      var id :| id in Scanned(nodes, d.lbl) && id in nodes && k in Entry(encode, nodes[id].props, d.props, id);
      assert id in Elems(ids);
      var j :| 0 <= j < |ids| && ids[j] == id;
      assert k in Entry(encode, listed[j].1.props, d.props, listed[j].0);
    }
  }

  /** The backfill loop of `create_composite_index`. */
  method Backfill(conn: Connection, cols: seq<Name>, name: Name, listed: Listed)
    requires name in conn.indexTables
    modifies conn`indexTables
    ensures conn.indexTables ==
            old(conn.indexTables)[name := old(conn.indexTables)[name] + FilledFrom(conn.encode, listed, cols, |listed|)]
  {
    hide CompositeKey, Values, Covers;
    ghost var start := conn.indexTables[name];
    assert start + FilledFrom(conn.encode, listed, cols, 0) == start;
    for i := 0 to |listed|
      invariant conn.indexTables == old(conn.indexTables)[name := start + FilledFrom(conn.encode, listed, cols, i)]
    {
      ghost var before := conn.indexTables[name];
      var values := CollectValues(listed[i].1.props, cols);
      if values.Some? {
        var key := CompositeIndexKey(conn, values.value, listed[i].0);
        conn.indexTables := conn.indexTables[name := conn.indexTables[name] + {key}];
      }
      assert conn.indexTables[name] == before + Entry(conn.encode, listed[i].1.props, cols, listed[i].0);
      assert conn.indexTables[name] == start + FilledFrom(conn.encode, listed, cols, i + 1);
    }
  }

  lemma NameTaken(tables: Tables, encode: Value -> Key, nodes: map<u64, NodeRecord>, defs: set<IndexDef>, d: IndexDef)
    requires IndexesOk(tables, encode, nodes, defs) && DefOk(d)
    ensures TableName(d) in tables <==> d in defs
  {
    hide TableName, DefOk, DefOfName, NameOk;
    NameIsOk(d);
    if d in defs {
      assert HoldsIndex(tables, encode, nodes, d);
    }
  }

  lemma IndexAdded(tables: Tables, encode: Value -> Key, nodes: map<u64, NodeRecord>, defs: set<IndexDef>, d: IndexDef,
                   keys: set<Key>)
    requires IndexesOk(tables, encode, nodes, defs) && DefOk(d) && forall e :: e in defs ==> FoldDef(e) != FoldDef(d)
    ensures IndexesOk(tables[TableName(d) := keys], encode, nodes, defs + {d}) <==> keys == IndexKeys(encode, nodes, d)
  {
    hide TableName, DefOk, DefOfName, NameOk, IndexKeys, FoldDef;
    NameIsOk(d);
    var tables' := tables[TableName(d) := keys];
    forall e | e in defs ensures HoldsIndex(tables', encode, nodes, e) {
      assert HoldsIndex(tables, encode, nodes, e);
      NameIsOk(e);
    }
    assert HoldsIndex(tables', encode, nodes, d) <==> keys == IndexKeys(encode, nodes, d);
  }

  lemma IndexGone(tables: Tables, encode: Value -> Key, nodes: map<u64, NodeRecord>, defs: set<IndexDef>, d: IndexDef)
    requires IndexesOk(tables, encode, nodes, defs) && DefOk(d)
    ensures IndexesOk(tables - {TableName(d)}, encode, nodes, defs - {d})
  {
    hide TableName, DefOk, DefOfName, IndexKeys, FoldDef;
    NameIsOk(d);
    forall e | e in defs - {d} ensures HoldsIndex(tables - {TableName(d)}, encode, nodes, e) {
      assert HoldsIndex(tables, encode, nodes, e);
      NameIsOk(e);
    }
  }

  /** The table that SQLite takes a name for, if there is one. */
  method FindTable(tables: Tables, name: Name) returns (r: Option<Name>)
    ensures r.Some? ==> r.value in tables && FoldName(r.value) == FoldName(name)
    ensures r.None? ==> forall n :: n in tables ==> FoldName(n) != FoldName(name)
  {
    hide FoldName;
    var left := tables.Keys;
    while left != {}
      invariant left <= tables.Keys && forall n :: n in tables.Keys - left ==> FoldName(n) != FoldName(name)
      decreases left
    {
      var n :| n in left;
      if FoldName(n) == FoldName(name) {
        return Some(n);
      }
      left := left - {n};
    }
    return None;
  }

  /** A table is found under a name exactly when an index of the name exists, case aside. */
  lemma FoundTable(tables: Tables, encode: Value -> Key, nodes: map<u64, NodeRecord>, defs: set<IndexDef>, d: IndexDef,
                   name: Name)
    requires IndexesOk(tables, encode, nodes, defs) && DefOk(d)
    ensures name in tables && FoldName(name) == FoldName(TableName(d)) ==>
              Found(defs, d, DefOfName(name)) && tables[name] == IndexKeys(encode, nodes, DefOfName(name))
    ensures (exists e :: Found(defs, d, e)) <==> exists n :: n in tables && FoldName(n) == FoldName(TableName(d))
  {
    hide TableName, DefOk, DefOfName, IndexKeys, FoldDef, FoldName, NamesValid;
    AcceptedNamesValid(d);
    forall n | n in tables && FoldName(n) == FoldName(TableName(d))
      ensures Found(defs, d, DefOfName(n)) && tables[n] == IndexKeys(encode, nodes, DefOfName(n))
    {
      assert NameOk(n);
      AcceptedNamesValid(DefOfName(n));
      SharedTableExact(DefOfName(n), d);
      assert HoldsIndex(tables, encode, nodes, DefOfName(n));
    }
    if e :| Found(defs, d, e) {
      assert HoldsIndex(tables, encode, nodes, e);
      AcceptedNamesValid(e);
      SharedTableExact(e, d);
    }
  }

  /** `create_composite_index`. The check for a duplicate compares names exactly, `CREATE TABLE` without
      regard to case; it fails on an index whose names differ in case only. */
  method CreateCompositeIndex(conn: Connection, d: IndexDef) returns (r: Result<()>)
    requires NodeRowsOk(conn.nodes, conn.nodeSet)
    requires IndexesOk(conn.indexTables, conn.encode, conn.nodeSet, conn.indexSet)
    modifies conn`indexTables, conn`indexSet
    ensures r == if CheckDef(d).Some? then Err(CheckDef(d).value)
                 else if d in old(conn.indexSet) then Err(IndexAlreadyExists)
                 else if exists e :: Found(old(conn.indexSet), d, e) then Err(TableExists) else Ok(())
    ensures r.Err? ==> conn.indexTables == old(conn.indexTables) && conn.indexSet == old(conn.indexSet)
    ensures r.Ok? ==> conn.indexSet == old(conn.indexSet) + {d}
    ensures r.Ok? ==> (IndexesOk(conn.indexTables, conn.encode, conn.nodeSet, conn.indexSet) <==>
            ScanAgrees(conn.nodeSet, d))
  {
    hide NodeRowsOk, IndexesOk, DefOk, CheckDef, TableName, IndexKeys, Scanned, ScanAgrees, FilledFrom, Backfilled,
         FoldDef, FoldName, DefOfName;
    CheckDefExact(d);
    var bad := CheckDef(d);
    if bad.Some? {
      return Err(bad.value);
    }
    NameTaken(conn.indexTables, conn.encode, conn.nodeSet, conn.indexSet, d);
    if TableName(d) in conn.indexTables {
      return Err(IndexAlreadyExists);
    }
    FoundTable(conn.indexTables, conn.encode, conn.nodeSet, conn.indexSet, d, TableName(d));
    var other := FindTable(conn.indexTables, TableName(d));
    if other.Some? {
      return Err(TableExists);
    }
    conn.indexTables := conn.indexTables[TableName(d) := {}];
    var listed := FindNodesByLabel(conn, d.lbl);
    Backfill(conn, d.props, TableName(d), listed);
    ghost var keys := Backfilled(conn.encode, conn.nodeSet, d);
    FilledIsBackfilled(conn.encode, conn.nodeSet, d, listed);
    assert {} + keys == keys;
    assert conn.indexTables == old(conn.indexTables)[TableName(d) := keys];
    forall e | e in conn.indexSet ensures FoldDef(e) != FoldDef(d) {
      assert !Found(conn.indexSet, d, e);
    }
    IndexAdded(old(conn.indexTables), conn.encode, conn.nodeSet, conn.indexSet, d, keys);
    BackfillExact(conn.encode, conn.nodeSet, d);
    conn.indexSet := conn.indexSet + {d};
    return Ok(());
  }

  /** `drop_composite_index`. */
  method DropCompositeIndex(conn: Connection, d: IndexDef) returns (r: Result<()>)
    requires IndexesOk(conn.indexTables, conn.encode, conn.nodeSet, conn.indexSet)
    modifies conn`indexTables, conn`indexSet
    ensures IndexesOk(conn.indexTables, conn.encode, conn.nodeSet, conn.indexSet)
    ensures r == if CheckDef(d).Some? then Err(CheckDef(d).value)
                 else if d in old(conn.indexSet) then Ok(()) else Err(IndexNotFound)
    ensures conn.indexSet == if r.Ok? then old(conn.indexSet) - {d} else old(conn.indexSet)
  {
    hide IndexesOk, DefOk, CheckDef, TableName;
    CheckDefExact(d);
    var bad := CheckDef(d);
    if bad.Some? {
      return Err(bad.value);
    }
    NameTaken(conn.indexTables, conn.encode, conn.nodeSet, conn.indexSet, d);
    if TableName(d) !in conn.indexTables {
      return Err(IndexNotFound);
    }
    IndexGone(conn.indexTables, conn.encode, conn.nodeSet, conn.indexSet, d);
    conn.indexTables := conn.indexTables - {TableName(d)};
    conn.indexSet := conn.indexSet - {d};
    return Ok(());
  }

  // ---------------------------------------------------------------- lookup

  /** The indexed nodes whose leading covered values are the given ones. */
  ghost function Matching(nodes: map<u64, NodeRecord>, d: IndexDef, leading: seq<Value>): set<u64>
    requires |leading| <= |d.props|
  {
    set id | id in nodes && Indexed(nodes, d, id) && Values(nodes[id].props, d.props)[..|leading|] == leading
  }

  /** The nodes a filtered label scan finds: the label and the given values of the leading
      properties, whatever the other covered properties are. */
  ghost function FilteredScan(nodes: map<u64, NodeRecord>, d: IndexDef, leading: seq<Value>): set<u64>
    requires |leading| <= |d.props|
  {
    set id | id in nodes && d.lbl in nodes[id].labels &&
             forall i :: 0 <= i < |leading| ==>
               d.props[i] in nodes[id].props && nodes[id].props[d.props[i]] == leading[i]
  }

  /** A lookup and a filtered scan agree exactly when no node the scan finds lacks a covered
      property; with as many values as properties they always do. */
  lemma LookupIsFilteredScan(nodes: map<u64, NodeRecord>, d: IndexDef, leading: seq<Value>)
    requires |leading| <= |d.props|
    ensures Matching(nodes, d, leading) <= FilteredScan(nodes, d, leading)
    ensures Matching(nodes, d, leading) == FilteredScan(nodes, d, leading) <==>
            forall id :: id in FilteredScan(nodes, d, leading) ==> Covers(nodes[id].props, d.props)
    ensures |leading| == |d.props| ==> Matching(nodes, d, leading) == FilteredScan(nodes, d, leading)
  {
    var matching, scan := Matching(nodes, d, leading), FilteredScan(nodes, d, leading);
    forall id | id in matching ensures id in scan {
      var values := Values(nodes[id].props, d.props);
      assert forall i :: 0 <= i < |leading| ==> values[i] == values[..|leading|][i] == leading[i];
    }
    forall id | id in scan && Covers(nodes[id].props, d.props) ensures id in matching {
      var values := Values(nodes[id].props, d.props);
      assert forall i :: 0 <= i < |leading| ==> values[..|leading|][i] == leading[i];
      assert values[..|leading|] == leading;
    }
  }

  /** The case: a node with the first of two covered properties is scanned, not looked up. */
  lemma ShortLookupMisses(id: u64, v: Value)
    ensures var d, nodes := IndexDef([65], [[97], [98]]), map[id := NodeRecord([[65]], map[[97] := v])];
            Matching(nodes, d, [v]) == {} && FilteredScan(nodes, d, [v]) == {id}
  {
    var d, nodes := IndexDef([65], [[97], [98]]), map[id := NodeRecord([[65]], map[[97] := v])];
    assert [97] != [98] by {
      assert [97][0] != [98][0];
    }
    assert d.props[0] == [97] && d.props[1] == [98] && d.props[1] !in nodes[id].props;
  }

  /** The trailing ids of a list of keys. */
  function TrailingIds(keys: seq<Key>): seq<u64> {
    if keys == [] then []
    else
      var init, last := TrailingIds(keys[..|keys| - 1]), keys[|keys| - 1];
      if |last| < 8 then init else init + [FromWord(last[|last| - 8..])]
  }

  ghost predicate EndsApart(keys: seq<Key>) {
    (forall i :: 0 <= i < |keys| ==> |keys[i]| >= 8) &&
    forall i, j :: 0 <= i < j < |keys| ==> FromWord(keys[i][|keys[i]| - 8..]) != FromWord(keys[j][|keys[j]| - 8..])
  }

  lemma {:induction false} TrailingIdsAre(keys: seq<Key>)
    requires EndsApart(keys)
    ensures |TrailingIds(keys)| == |keys| && NoDup(TrailingIds(keys))
    ensures forall i :: 0 <= i < |keys| ==> TrailingIds(keys)[i] == FromWord(keys[i][|keys[i]| - 8..])
  {
    hide FromWord;
    if keys != [] {
      var init := keys[..|keys| - 1];
      assert forall i :: 0 <= i < |init| ==> init[i] == keys[i];
      TrailingIdsAre(init);
    }
  }

  /** The scanned entries are those of the matching nodes, one each. */
  lemma HitsAreMatches(encode: Value -> Key, nodes: map<u64, NodeRecord>, d: IndexDef, leading: seq<Value>,
                       keys: seq<Key>)
    requires PrefixFree(encode) && |leading| <= |d.props|
    requires keys == SortedKeys(Extensions(IndexKeys(encode, nodes, d), EncodeAll(encode, leading)))
    ensures NoDup(TrailingIds(keys)) && Elems(TrailingIds(keys)) == Matching(nodes, d, leading)
  {
    hide SortedKeys, EncodeAll, PrefixFree, IndexKeys, Own, FromWord, Matching, TrailingIds, EndsApart, NoDup,
         KeysSorted;
    var hits := Extensions(IndexKeys(encode, nodes, d), EncodeAll(encode, leading));
    KeysSortedNoDup(keys);
    assert forall i :: 0 <= i < |keys| ==> keys[i] in Elems(keys) && keys[i] in hits;
    KeysEndApart(encode, nodes, d, keys);
    TrailingIdsAre(keys);
    forall id ensures id in TrailingIds(keys) <==> id in Matching(nodes, d, leading) {
      MatchIff(encode, nodes, d, leading, id);
      ListedIff(encode, nodes, d, keys, id);
      assert forall k :: k in Elems(keys) <==> k in hits;
    }
  }

  lemma KeysEndApart(encode: Value -> Key, nodes: map<u64, NodeRecord>, d: IndexDef, keys: seq<Key>)
    requires NoDup(keys) && forall i :: 0 <= i < |keys| ==> keys[i] in IndexKeys(encode, nodes, d)
    ensures EndsApart(keys)
  {
    hide IndexKeys, Own, FromWord;
    forall i | 0 <= i < |keys| ensures |keys[i]| >= 8 {
      OwnOfKey(encode, nodes, d, keys[i]);
    }
    forall i, j | 0 <= i < j < |keys| ensures FromWord(keys[i][|keys[i]| - 8..]) != FromWord(keys[j][|keys[j]| - 8..]) {
      OneKeyPerNode(encode, nodes, d, keys[i], keys[j]);
    }
  }

  lemma ListedIff(encode: Value -> Key, nodes: map<u64, NodeRecord>, d: IndexDef, keys: seq<Key>, id: u64)
    requires EndsApart(keys) && forall i :: 0 <= i < |keys| ==> keys[i] in IndexKeys(encode, nodes, d)
    ensures id in TrailingIds(keys) <==> exists k :: k in Elems(keys) && k in Own(encode, nodes, d, id)
  {
    hide IndexKeys, Own, FromWord, TrailingIds, EndsApart;
    TrailingIdsAre(keys);
    var ids := TrailingIds(keys);
    if id in ids {
      var i :| 0 <= i < |ids| && ids[i] == id;
      OwnOfKey(encode, nodes, d, keys[i]);
      assert keys[i] in Elems(keys);
    }
    if k :| k in Elems(keys) && k in Own(encode, nodes, d, id) {
      IndexKeysById(encode, nodes, d, k, id);
      var i :| 0 <= i < |keys| && keys[i] == k;
      assert ids[i] == id;
    }
  }

  lemma OneKeyPerNode(encode: Value -> Key, nodes: map<u64, NodeRecord>, d: IndexDef, a: Key, b: Key)
    requires a in IndexKeys(encode, nodes, d) && b in IndexKeys(encode, nodes, d) && a != b
    ensures |a| >= 8 && |b| >= 8 && FromWord(a[|a| - 8..]) != FromWord(b[|b| - 8..])
  {
    hide CompositeKey, IndexKeys, FromWord;
    OwnOfKey(encode, nodes, d, a);
    OwnOfKey(encode, nodes, d, b);
  }

  lemma MatchIff(encode: Value -> Key, nodes: map<u64, NodeRecord>, d: IndexDef, leading: seq<Value>, id: u64)
    requires PrefixFree(encode) && |leading| <= |d.props|
    ensures id in Matching(nodes, d, leading) <==>
            exists k :: k in Extensions(IndexKeys(encode, nodes, d), EncodeAll(encode, leading)) &&
                k in Own(encode, nodes, d, id)
  {
    hide CompositeKey, IndexKeys, FromWord, EncodeAll, PrefixFree, Own;
    var hits := Extensions(IndexKeys(encode, nodes, d), EncodeAll(encode, leading));
    if Indexed(nodes, d, id) {
      var values := Values(nodes[id].props, d.props);
      var k := CompositeKey(encode, values, id);
      OwnIff(encode, nodes, d, k, id);
      IndexKeysById(encode, nodes, d, k, id);
      KeyPrefixExact(encode, values, id, leading);
      assert k in hits <==> values[..|leading|] == leading;
      if k' :| k' in hits && k' in Own(encode, nodes, d, id) {
        OwnIff(encode, nodes, d, k', id);
      }
    } else {
      forall k ensures k !in Own(encode, nodes, d, id) {
        OwnIff(encode, nodes, d, k, id);
      }
    }
  }

  /** What a lookup answers for one index. */
  ghost predicate LooksUp(nodes: map<u64, NodeRecord>, e: IndexDef, leading: seq<Value>, ids: seq<u64>) {
    |leading| <= |e.props| && NoDup(ids) && Elems(ids) == Matching(nodes, e, leading)
  }

  /** `composite_index_prefix_lookup`: each indexed node with those leading values, once. Under a name
      that is no index SQLite reads the index whose name differs in case only, if there is one. A prefix
      longer than the index fails an assertion in the source. */
  method PrefixLookup(conn: Connection, d: IndexDef, leading: seq<Value>) returns (r: Result<seq<u64>>)
    requires IndexesOk(conn.indexTables, conn.encode, conn.nodeSet, conn.indexSet) && PrefixFree(conn.encode)
    requires |leading| <= |d.props|
    ensures CheckDef(d).Some? ==> r == Err(CheckDef(d).value)
    ensures CheckDef(d).None? && (forall e :: !Found(conn.indexSet, d, e)) ==> r == Err(NoSuchTable)
    ensures CheckDef(d).None? ==>
              forall e :: Found(conn.indexSet, d, e) ==> r.Ok? && LooksUp(conn.nodeSet, e, leading, r.value)
  {
    hide IndexesOk, DefOk, CheckDef, TableName, DefOfName, IndexKeys, SortedKeys, EncodeAll, PrefixFree, LooksUp,
         FromWord, FoldDef, FoldName;
    CheckDefExact(d);
    var bad := CheckDef(d);
    if bad.Some? {
      return Err(bad.value);
    }
    var found := FindTable(conn.indexTables, TableName(d));
    if found.None? {
      FoundTable(conn.indexTables, conn.encode, conn.nodeSet, conn.indexSet, d, TableName(d));
      return Err(NoSuchTable);
    }
    FoundTable(conn.indexTables, conn.encode, conn.nodeSet, conn.indexSet, d, found.value);
    var prefix := EncodeLeading(conn, leading);
    var upper := NextPrefix(prefix);
    var keys := SelectKeys(conn.indexTables[found.value], prefix, upper);
    var ids := ReadIds(keys);
    OneFound(conn.indexTables, conn.encode, conn.nodeSet, conn.indexSet, d, DefOfName(found.value));
    AnswerOf(conn.encode, conn.nodeSet, DefOfName(found.value), leading, keys);
    return Ok(ids);
  }

  /** No more than one index is found under a name, and it has as many columns. */
  lemma OneFound(tables: Tables, encode: Value -> Key, nodes: map<u64, NodeRecord>, defs: set<IndexDef>, d: IndexDef,
                 e: IndexDef)
    requires IndexesOk(tables, encode, nodes, defs) && Found(defs, d, e)
    ensures |e.props| == |d.props| && forall f :: Found(defs, d, f) ==> f == e
    ensures d in defs ==> e == d
  {
    hide HoldsIndex, NameOk, DefOfName, FoldName;
    assert |FoldDef(e).props| == |e.props| && |FoldDef(d).props| == |d.props|;
  }

  lemma AnswerOf(encode: Value -> Key, nodes: map<u64, NodeRecord>, e: IndexDef, leading: seq<Value>, keys: seq<Key>)
    requires PrefixFree(encode) && |leading| <= |e.props|
    requires keys == SortedKeys(Extensions(IndexKeys(encode, nodes, e), EncodeAll(encode, leading)))
    ensures LooksUp(nodes, e, leading, TrailingIds(keys))
  {
    hide PrefixFree, SortedKeys, IndexKeys, EncodeAll, Matching, NoDup, TrailingIds;
    HitsAreMatches(encode, nodes, e, leading, keys);
  }

  method EncodeLeading(conn: Connection, leading: seq<Value>) returns (prefix: Key)
    ensures prefix == EncodeAll(conn.encode, leading)
  {
    prefix := [];
    for i := 0 to |leading|
      invariant prefix == EncodeAll(conn.encode, leading[..i])
    {
      TakeOneMore(leading, i, leading[i]);
      EncodeAllMore(conn.encode, leading[..i], leading[i]);
      prefix := prefix + conn.encode(leading[i]);
    }
    assert leading[..|leading|] == leading;
  }

  /** The range query of a lookup, in key order. */
  method SelectKeys(table: set<Key>, prefix: Key, upper: Option<Key>) returns (keys: seq<Key>)
    requires upper == PrefixSuccessor(prefix)
    ensures keys == SortedKeys(Extensions(table, prefix))
  {
    var rows: Table<()> := map k | k in table :: ();
    keys := SelectRange(rows, prefix, upper);
    forall k ensures k in Range(rows.Keys, prefix, upper) <==> k in Extensions(table, prefix) {
      PrefixRangeExact(prefix, k);
    }
    assert Range(rows.Keys, prefix, upper) == Extensions(table, prefix);
  }

  /** The ids behind the keys; a key shorter than an id is skipped. */
  method ReadIds(keys: seq<Key>) returns (ids: seq<u64>)
    ensures ids == TrailingIds(keys)
  {
    hide FromWord;
    ids := [];
    assert keys[..0] == [];
    for i := 0 to |keys|
      invariant ids == TrailingIds(keys[..i])
    {
      assert keys[..i + 1][..i] == keys[..i];
      if |keys[i]| >= 8 {
        ids := ids + [FromWord(keys[i][|keys[i]| - 8..])];
      }
    }
    assert keys[..|keys|] == keys;
  }

  /** `index_lookup`: one property, through `scan_prefix`. At full width the answer is that of a
      filtered label scan. */
  method IndexLookup(conn: Connection, lbl: Name, prop: Name, value: Value) returns (r: Result<seq<u64>>)
    requires IndexesOk(conn.indexTables, conn.encode, conn.nodeSet, conn.indexSet) && PrefixFree(conn.encode)
    ensures var d := IndexDef(lbl, [prop]);
            && (CheckDef(d).Some? ==> r == Err(CheckDef(d).value))
            && (CheckDef(d).None? && (forall e :: !Found(conn.indexSet, d, e)) ==> r == Err(IndexNotFound))
            && (CheckDef(d).None? ==> forall e :: Found(conn.indexSet, d, e) ==>
                  r.Ok? && NoDup(r.value) && |e.props| == 1 && Elems(r.value) == FilteredScan(conn.nodeSet, e, [value]))
  {
    hide IndexesOk, DefOk, CheckDef, TableName, DefOfName, IndexKeys, SortedKeys, PrefixFree, Matching, FilteredScan,
         FromWord, FoldDef, FoldName;
    var d := IndexDef(lbl, [prop]);
    CheckDefExact(d);
    var bad := CheckDef(d);
    if bad.Some? {
      return Err(bad.value);
    }
    var found := FindTable(conn.indexTables, TableName(d));
    if found.None? {
      FoundTable(conn.indexTables, conn.encode, conn.nodeSet, conn.indexSet, d, TableName(d));
      return Err(IndexNotFound);
    }
    FoundTable(conn.indexTables, conn.encode, conn.nodeSet, conn.indexSet, d, found.value);
    ghost var e := DefOfName(found.value);
    OneFound(conn.indexTables, conn.encode, conn.nodeSet, conn.indexSet, d, e);
    var keys := ScanKeys(conn.indexTables[found.value], conn.encode(value));
    assert EncodeAll(conn.encode, [value]) == conn.encode(value) by {
      assert [value][1..] == [];
    }
    HitsAreMatches(conn.encode, conn.nodeSet, e, [value], keys);
    LookupIsFilteredScan(conn.nodeSet, e, [value]);
    var ids := ReadIds(keys);
    return Ok(ids);
  }

  /** The case: with an index on (Person, name) alone, (person, name) is no index, cannot be created, and
      is looked up as if it were the other one. */
  lemma CaseVariantFound()
    ensures var other, d := IndexDef([80, 101, 114], [[110]]), IndexDef([112, 101, 114], [[110]]);
            && DefOk(other) && DefOk(d) && d !in {other} && Found({other}, d, other)
            && forall rec: NodeRecord, id: u64 :: rec.labels == [other.lbl] && Covers(rec.props, d.props) ==>
                 Matching(map[id := rec], other, []) == {id} && Matching(map[id := rec], d, []) == {}
  {
    var other, d := IndexDef([80, 101, 114], [[110]]), IndexDef([112, 101, 114], [[110]]);
    assert NameByte(80) && NameByte(101) && NameByte(114) && NameByte(110) && NameByte(112);
    assert FoldName(other.lbl) == FoldName(d.lbl) && FoldNames(other.props) == FoldNames(d.props);
    forall rec: NodeRecord, id: u64 | rec.labels == [other.lbl] && Covers(rec.props, d.props)
      ensures Matching(map[id := rec], other, []) == {id} && Matching(map[id := rec], d, []) == {}
    {
      assert other.lbl[0] != d.lbl[0];
    }
  }

  method ScanKeys(table: set<Key>, prefix: Key) returns (keys: seq<Key>)
    ensures keys == SortedKeys(Extensions(table, prefix))
  {
    var t: Table<()> := map k | k in table :: ();
    assert t.Keys == table;
    var rows := ScanPrefix(t, prefix);
    keys := seq(|rows|, i requires 0 <= i < |rows| => rows[i].0);
  }
}
