# graphdblite: storage, traversals and durations

graphdblite is a property graph database on top of SQLite used as a plain key-value store. This
project models two of its components in Dafny and proves what they promise.

**The graph store.** One multigraph is kept several times over: sorted delta-varint adjacency lists in
`adj_out` and `adj_in`, one `edge_props` row per parallel edge, counters per edge type and per label,
and index tables whose keys end in a node id. `Db.Connection` holds these tables as byte maps and, as
ghost fields, the graph they stand for; `Transaction.Represents` says what "stand for" means. Every
storage operation is a method that changes the tables as the source does and is proved against the
change of the graph. `Transaction.WriteTransaction` composes them in the order of `src/transaction.rs` and
of the query language's writes in `src/cypher/executor/write.rs` and `merge.rs`, and `Execute` carries the
main result: over every run whose successful operations are safe, from an empty file on, the tables represent
exactly the graph that `Runs.Run` computes, and an error puts back the graph there was at BEGIN. `Runs.Safe`
lists the exceptions, each a branch of the source. `RunLaws` says of the graph alone what each operation refuses
and changes, and what a run can lose. Tables and graph determine each other (`GraphDetermined`,
`TablesDetermined`).

On a represented graph the four traversals are proved exact: breadth-first search with hop counts,
shortest path, all shortest paths, and the stack search for relationship-unique trails with work and
result caps. `Trails.Trace` describes the last one as a sequence of edge visits, so that both caps can be
stated as what happens to that sequence; `TrailsExact` shows that the sequence reports exactly the trails.

**Calendar durations.** Dates of the proleptic Gregorian calendar with a day-number bijection; month
arithmetic with clamped days; `duration.between`, `inMonths`, `inDays`, `inSeconds`; and printing and
parsing of durations.

| File | Source | Content |
|---|---|---|
| `Prelude`, `Bytes` | - | sequences, byte order, big-endian words, prefix bounds |
| `Encoding`, `Kv`, `Keys` | `src/storage/encoding.rs`, `kv.rs`, `edge.rs` | id lists, scans, row keys |
| `Graph`, `Db` | - | the multigraph, the tables, and when they agree |
| `Stats`, `Edges`, `Nodes`, `Cascade`, `Patterns`, `LabelScan` | `src/stats.rs`, `src/id.rs`, `src/storage/edge.rs`, `node.rs`, `src/schema.rs` | storage operations |
| `Index`, `IndexStore` | `src/storage/index.rs` | index names, keys, maintenance, creation, lookup |
| `Runs`, `RunLaws`, `Transaction` | `src/transaction.rs`, `src/cypher/executor/write.rs`, `merge.rs`, `src/db.rs` | operations on the graph, and on the tables |
| `Paths`, `Traverse`, `Shortest`, `AllShortest` | `src/storage/edge.rs` | breadth-first searches |
| `Trails`, `TrailSearch`, `TrailsExact`, `TrailOrder`, `Reachability` | `src/storage/edge.rs` | trails, and how the searches agree |
| `Calendar`, `Durations` | `src/temporal.rs` | dates, differences |
| `DurationText`, `TextLaws`, `DurationParsing`, `ReadingLaws` | `src/temporal.rs` | durations as text |

`dafny verify dfyconfig.toml` checks everything.

## Where the code does not keep its promise

For each of these an equivalence says when it does, and a lemma gives a case where it does not.

- A repeated label in `create_node` is counted twice: the counters stay right exactly for lists without
  repeats (`Nodes.CreateNode`, `Nodes.RepeatedLabelMiscounts`).
- The query language's CREATE and MERGE make a relationship without looking for its ends, where
  `WriteTransaction::create_edge` does: no edge is without its nodes exactly when no CREATE names a node that
  an earlier clause deleted (`Runs.StepClosed`, `Runs.RunClosed`, `Runs.CreateAfterDelete`).
- Setting a property to Null through a transaction or within MERGE leaves index entries behind, where the SET
  clause does not: agreement is kept exactly when no index of the node's labels covers the key with all its
  other properties present (`IndexStore.SetPropertyIndexes`, `IndexStore.NullLeavesEntry`).
- The backfill of a new index trusts a `LIKE` scan, which folds case, treats `_` as a wildcard and can
  match across two labels, where the documentation speaks of the nodes with the label: the index is right
  exactly when no such stranger has all covered properties (`IndexStore.BackfillExact`,
  `IndexStore.ScanAgreesByLabels`, `LabelScan.ScanReturnsOthers`). `Patterns.ColumnMatchesExact` says which
  nodes `find_nodes_by_label` returns for any label; for "%" all (`LabelScan.PercentScansAll`).
- Whether an index exists is asked with case, and SQLite creates and reads tables without: an index that
  differs from another in case only cannot be created and is looked up as the other
  (`Index.SharedTableExact`, `IndexStore.CaseVariantFound`).
- A composite lookup with fewer values than columns misses nodes that lack a later column
  (`IndexStore.LookupIsFilteredScan`, `IndexStore.ShortLookupMisses`).
- `create_edge` writes adjacency before it draws a number. Out of numbers, the tables still represent
  the old graph exactly when the endpoints were linked already (`Edges.CreateEdge`,
  `Edges.ExhaustedLeavesEntry`); `Execute` rolls back.
- The setters of edge properties write their row whether the edge exists or not
  (`Edges.SetEdgePropertyAt`, `Edges.PhantomRowCase`).
- A scan for a type with a NUL byte, which no stored type has, can meet rows of another type: deleting
  and listing parallel edges is exact exactly when it meets none (`Edges.ScanParallelExact`,
  `Keys.NulLabelScansOtherRows`).
- `traverse_paths` reports a trail as often as the product of how often its types are asked for
  (`TrailsExact.AnswersExact`, `TrailsExact.RepeatedLabelRepeatsRows`).
- `duration.between` can mix signs (`Durations.BetweenSigns`, `Durations.MixedSigns`), and adding it to a
  date loses a borrowed day (`Durations.BetweenThenAddDate`, `Durations.BorrowedDayLost`).
- `inMonths` compares dates before clocks, which is not the order of instants when offsets differ
  (`Durations.InMonthsByInstant`, `Durations.OffsetsCanMislead`).
- `inSeconds` and `inDays` overflow 64 bits for dates some 292 years apart: a build with overflow checks stops
  when the days or the total do not fit (`Durations.InSecondsExact`), one without is wrong exactly when the
  total does not (`Durations.WrappedInSecondsExact`).
- A duration whose nanoseconds reach a second, or disagree in sign with the seconds shown, is not read
  back (`DurationParsing.RoundTrip`, `DurationParsing.NotReadBack`).
- The colon format of durations does not carry a minus sign to the fraction, as a number in front of an `S`
  does: the two read the same seconds exactly when no minus stands in front of a fraction that shows, or a
  part is no number (`DurationParsing.FormatsAgree`, `DurationParsing.MinusBehindColon`).
- The label column shows the labels exactly when none has a colon (`Patterns.ColumnShowsLabels`). This
  concerns `add_node_label` alone, which checks no name (`LabelScan.UncheckedLabelReadsAsTwo`): its callers
  pass labels of the grammar.

`traverse_paths` says it tracks hashes of edges where the code compares whole (src, dst, label, seq) tuples,
as the model does.

## What is taken from elsewhere

SQLite's tables are maps, its BLOB order is the lexicographic order, ROLLBACK restores all tables, and a
write transaction is the only writer. MessagePack is `Connection.encode`, an arbitrary function, assumed
prefix-free (`Index.PrefixFree`) where a lookup needs it; node and edge rows hold decoded values. The keys
of the `metadata` table are constructors instead of the texts the source formats. Dates and times are those
of chrono 0.4.44, years -262143 to 262142; its addition of whole days to dates is `Calendar.DateOf`.

## Model

| member | source | states |
|---|---|---|
| `Transaction.WriteTransaction.Execute` | src/db.rs:313-417 | Over every run whose successful operations are safe, those of a transaction and the further writes of the query language, the byte tables represent exactly the graph the run produces on paper; the first error, of whatever operation, restores the graph there was at BEGIN, exhausted numbers included |
| `Transaction.GraphDetermined` | src/transaction.rs:247-413 | Node, adjacency, edge, counter and index tables represent at most one graph: nothing in them can be read two ways |
| `Transaction.TablesDetermined` | src/transaction.rs:247-413 | A graph has one representation: every node, adjacency, edge and index table, every count, the next node id and, where both have its row, the next edge number follow from it, whatever history led there; a missing number row means 0 |
| `Transaction.EmptyDatabase` | src/schema.rs:14-68 | The tables of a new file represent the empty graph, so every reachable state is covered |
| `Transaction.WriteTransaction.CreateNodeWithLabels` | src/transaction.rs:259-275 | Same errors, id and graph as the abstract step; nodes, counters and all index tables agree afterwards exactly when no label is named twice |
| `Transaction.WriteTransaction.DeleteNode` | src/transaction.rs:278-283 | Node, incident edges, counters and the index entries under all its labels go together; agreement of all tables is kept |
| `Transaction.WriteTransaction.SetNodeProperty` | src/transaction.rs:286-308 | All tables agree afterwards exactly when the value is not Null or no index of the node would give the Null an entry |
| `Transaction.WriteTransaction.RemoveNodeProperty` | src/transaction.rs:311-322 | The record loses the key and every index follows |
| `Transaction.WriteTransaction.CreateEdge` | src/transaction.rs:325-352 | An edge is made only between nodes that exist; only an exhausted edge number leaves the tables short of the graph |
| `Transaction.WriteTransaction.DeleteEdge` | src/transaction.rs:355-357 | All parallel edges of the type go, nothing else; the tables represent what is left exactly when the type has no NUL byte or no edge row begins as the scan does |
| `Transaction.WriteTransaction.DeleteSingleEdge` | src/cypher/executor/write.rs:275-282 | One relationship goes, and representation is kept for every argument |
| `Transaction.WriteTransaction.QueryCreateNode` | src/cypher/executor/write.rs:17-31 | The node of CREATE and MERGE, without size limits: same errors, id and graph as the abstract step; all tables agree exactly when no label is named twice |
| `Transaction.WriteTransaction.QueryCreateEdge` | src/cypher/executor/write.rs:203-224 | The relationship of CREATE and MERGE: no endpoint is looked up, and edges keep their nodes exactly when both endpoints exist |
| `Transaction.WriteTransaction.QueryDeleteNode` | src/cypher/executor/write.rs:284-303 | DELETE of a node: refused exactly without DETACH while some relationship starts or ends at it, and without DETACH no relationship ever goes; passed over when the node is gone already; otherwise node, relationships, counters and index entries go |
| `Transaction.WriteTransaction.QuerySetProperty` | src/cypher/executor/write.rs:423-445 | SET of one property: index maintenance is told that a Null removes it, so all tables agree for every value |
| `Transaction.WriteTransaction.MergeSetProperty` | src/cypher/executor/merge.rs:19-41 | The same SET within MERGE tells the indexes a Null: all tables agree exactly when no index of the node would give it an entry |
| `Transaction.WriteTransaction.SetEdgeProperty` | src/cypher/executor/write.rs:381-414 | One property of one relationship changes; the tables represent the graph exactly when the relationship exists |
| `Transaction.WriteTransaction.SetEdgeProperties` | src/cypher/executor/write.rs:562-623 | All properties of one relationship change; the tables represent the graph exactly when the relationship exists |
| `Transaction.WriteTransaction.SetProperties` | src/cypher/executor/write.rs:639-684 | All properties of a node change and every index follows |
| `Transaction.WriteTransaction.SetLabels` | src/cypher/executor/write.rs:486-507 | Labels are added, counted, and the node is indexed under all it has; entries it had already stay right |
| `Transaction.WriteTransaction.RemoveLabels` | src/cypher/executor/write.rs:780-793 | Labels go with their counts and their index entries; entries under the other labels stay |
| `Transaction.WriteTransaction.CreateIndex` | src/transaction.rs:360-384 | Fails on an index of the same name, exactly or but for case; a new index agrees with the nodes exactly when the LIKE scan returned no node of another label that has all covered properties |
| `Transaction.WriteTransaction.DropIndex` | src/transaction.rs:367-391 | The index goes and agreement is kept; errors as in the source |
| `Transaction.WriteTransaction.Apply` | src/transaction.rs:247-391 | Any one operation follows its abstract step and keeps the representation exactly when it is safe |
| `Transaction.WriteTransaction.Rollback` | src/db.rs:382-387 | ROLLBACK brings back tables that represent the graph at BEGIN |
| `Runs.StepClosed` | src/cypher/executor/write.rs:203-224 | An operation leaves an edge without its two nodes exactly when it is the CREATE of the query language and an endpoint does not exist |
| `Runs.RunClosed` | src/cypher/executor/write.rs:203-224 | At no moment of a run is there an edge without its two nodes exactly when no CREATE of the run names an endpoint that is gone at that moment; safe runs name none |
| `Runs.RunEndsClosed` | src/transaction.rs:325-352 | Nor does such a run end with one |
| `Runs.CreateAfterDelete` | src/cypher/executor/write.rs:203-224 | The failing case, on every graph with the two nodes: MATCH (a), (b) DETACH DELETE a CREATE (a)-[:R]->(b) succeeds and leaves an edge without its source |
| `Runs.RunIdsIncrease` | src/id.rs:8-40 | Over every run node ids are handed out in increasing order and never twice, deletions notwithstanding |
| `Runs.RunNumbersFresh` | src/id.rs:42-80 | Over every run an edge that is new carries a number above all numbers taken before |
| `RunLaws.StepErrors` | src/transaction.rs:247-357 | For every operation not about indexes, exactly when each error comes: sizes first, then missing nodes, names, numbers; only a DELETE without DETACH is refused, exactly for a node with a relationship |
| `RunLaws.IndexErrors` | src/storage/index.rs:110-170 | Index operations fail exactly on a bad definition, an index of that name, one that differs in case only, or none to drop |
| `RunLaws.SizeOfList` | src/types.rs:1294-1298 | The size of a list is the sum over any two parts of it |
| `RunLaws.SizeOfValues` | src/types.rs:1294-1298 | A text counts its bytes, a scalar eight, a list its items |
| `RunLaws.StepEdges` | src/cypher/executor/write.rs:256-306 | An operation takes exactly the edges it names or that end at its node, and only a deletion does, never a DELETE without DETACH; only a creation adds one, under the next number |
| `RunLaws.StepEdgeProps` | src/storage/edge.rs:334-376 | Key by key: a property of an edge changes only by an operation on that edge and key, Null removing it |
| `RunLaws.StepNodes` | src/storage/node.rs:76-102 | A node goes only by an operation that deletes it, and comes only by a creation, under the next id |
| `RunLaws.StepNodeProps` | src/transaction.rs:286-322 | Key by key: a property of a node changes only by an operation on that node and key, Null removing it |
| `RunLaws.StepLabels` | src/cypher/executor/write.rs:486-507 | A node carries the labels of its creation and those added later, without those removed |
| `RunLaws.StepRest` | src/transaction.rs:360-391 | Indexes, both counters and the answer after any operation |
| `RunLaws.RunEdges` | src/transaction.rs:247-413 | Over every run an edge is lost only to an operation that takes it, and where edges keep their nodes such an operation does take it; none comes back |
| `RunLaws.RunNodes` | src/transaction.rs:247-413 | A node is there after a run exactly when no operation of the run deletes it |
| `RunLaws.RunLabelsAscend` | src/storage/node.rs:22-23 | Over every run each node lists its labels in byte order |
| `RunLaws.RunReplies` | src/transaction.rs:247-413 | One reply for each operation, an id for those that make a node |
| `RunLaws.RunConcat` | src/db.rs:313-417 | A run of two parts is one part after the other, the first error ending it |
| `Bytes.PrefixRangeExact` | src/storage/kv.rs:70-116 | The range test of a prefix scan accepts exactly the extensions of the prefix, the empty and the all-0xFF ones included |
| `Bytes.WordRoundTrip` | src/storage/edge.rs:12-17 | Big-endian ids are read back as they were |
| `Bytes.WordOrder` | src/storage/edge.rs:12-17 | Big-endian ids sort as numbers |
| `Bytes.LessWritten` | src/storage/kv.rs:70-103 | Byte order of keys: a proper prefix comes first, otherwise the first byte that differs decides |
| `Kv.PrefixUpperBound` | src/storage/kv.rs:106-116 | Popping 0xFF bytes and incrementing the last computes the least bound above all extensions, or none |
| `Kv.NextPrefix` | src/storage/index.rs:298-308 | Walking an index down over a copy computes the same bound as popping bytes |
| `Kv.SelectRange` | src/storage/index.rs:256-277 | A range query returns its keys once each, in byte order |
| `Kv.ScanPrefix` | src/storage/kv.rs:70-103 | A prefix scan returns exactly the rows whose key extends the prefix, in key order, with their values |
| `Encoding.EncodeVarint` | src/storage/encoding.rs:40-53 | The shifting loop appends the LEB128 form of the number |
| `Encoding.DecodeVarint` | src/storage/encoding.rs:56-67 | The accumulating loop reads as the specification does, running out of bytes and shifting too far included |
| `Encoding.VarintRoundTrip` | src/storage/encoding.rs:40-67 | Every 64-bit number is read back from its one to ten bytes, whatever follows |
| `Encoding.VarintBytes` | src/storage/encoding.rs:40-53 | Byte i holds the seven bits from 7i on, all but the last have the high bit, and the last is not wasted |
| `Encoding.ReadVarintWritten` | src/storage/encoding.rs:56-67 | Of any bytes, the groups up to the first byte without the high bit are read, cut to 64 bits; beyond ten bytes the shift goes too far |
| `Encoding.UnfinishedVarint` | src/storage/encoding.rs:56-67 | Without such a byte up to ten bytes are cut short, and more go too far |
| `Encoding.EncodeIdList` | src/storage/encoding.rs:7-19 | The loop writes the delta list of a sorted list |
| `Encoding.DecodeIdList` | src/storage/encoding.rs:22-37 | The loop reads delta lists as specified, or faults where the sum would overflow |
| `Encoding.IdListRoundTrip` | src/storage/encoding.rs:7-37 | decode(encode(ids)) == ids for every strictly sorted list of 64-bit ids, without overflow |
| `Encoding.BinarySearch` | src/storage/encoding.rs:70-86 | Finds the id or the one place where it belongs |
| `Encoding.InsertIntoSorted` | src/storage/encoding.rs:70-75 | Set insertion that keeps strict order |
| `Encoding.RemoveFromSorted` | src/storage/encoding.rs:78-86 | Set removal that keeps strict order and tells whether the id was there |
| `Keys.EdgeKeyRoundTrip` | src/storage/edge.rs:23-66 | Label and sequence number are read back from an edge key, so distinct edges have distinct rows; needs a NUL-free label |
| `Keys.EdgePrefixExact` | src/storage/edge.rs:35-42 | Scanning the prefix of (src, dst, label) hits the rows of that triple and no others |
| `Keys.NulLabelScansOtherRows` | src/storage/edge.rs:35-42 | With a NUL in the label the scan also hits rows of another type |
| `Keys.EdgeKeyInjective` | src/storage/edge.rs:23-32 | Distinct edges have distinct keys, whatever bytes their labels hold |
| `Keys.EdgeKeyOrder` | src/storage/edge.rs:23-32 | Parallel edges are scanned in the order of their sequence numbers |
| `Keys.EdgeKeysBySource` | src/storage/edge.rs:23-32 | Edge rows stand by source, then by target |
| `Keys.KeyWithoutLabel` | src/storage/edge.rs:45-55 | A key shows no type exactly when it is shorter than two ids or has no NUL behind them |
| `Keys.AdjKeyInjective` | src/storage/edge.rs:12-20 | Distinct (node, type) pairs have distinct adjacency rows |
| `Keys.AdjPrefixExact` | src/storage/edge.rs:928-929 | Scanning a node id hits the adjacency rows of that node only |
| `Db.EdgesDetermined` | src/storage/edge.rs:23-42 | Two edge sets with the same edge rows are equal |
| `Db.AdjacencyDetermined` | src/storage/edge.rs:80-96 | Adjacency tables are a function of the edge set: sorted, non-empty lists and no stray rows |
| `Db.NodesDetermined` | src/storage/node.rs:281-286 | Two node sets with the same node rows are equal |
| `Stats.IncrementCount` | src/stats.rs:31-34 | The counter row stands one higher |
| `Stats.DecrementCountBy` | src/stats.rs:37-50 | Saturating subtraction; a counter at zero has no row |
| `Stats.NextEdgeSequence` | src/id.rs:47-80 | Hands out the counter and advances it, or fails without changing a number |
| `Stats.AllocateNodeId` | src/id.rs:8-40 | Hands out the id counter and advances it, or fails without effect |
| `Stats.TypeCountUpdate` | src/stats.rs:85-107 | Changing the count of one type to its new number of edges keeps all type counters exact |
| `Edges.CreateEdge` | src/storage/edge.rs:69-112 | Adds one edge under a number never used: no row is overwritten and both adjacency lists, rows and counters represent the larger graph; out of numbers, the tables still represent the old one exactly when the endpoints were already linked |
| `Edges.DeleteEdge` | src/storage/edge.rs:115-156 | Exactly the parallel edges of (src, dst, label) go from all four tables and the counter falls by their number, exactly when the scan meets no row of another type |
| `Edges.DeleteSingleEdge` | src/storage/edge.rs:159-204 | Exactly the one edge goes; the adjacency lists keep the endpoints while a parallel edge is left |
| `Edges.FarEndsIffParallel` | src/storage/edge.rs:80-96 | dst is in the out-list of src iff src is in the in-list of dst iff some edge row exists |
| `Edges.GetNeighbors` | src/storage/edge.rs:207-240 | The sorted far ends; for both directions the incoming ones not already listed behind |
| `Edges.NeighborListSpec` | src/storage/edge.rs:207-240 | Each neighbour once and no other node |
| `Edges.GetAllEdgeProps` | src/storage/edge.rs:290-313 | Every parallel edge with its sequence number and properties, in number order, exactly when the scan meets no row of another type |
| `Edges.ParallelCount` | src/storage/edge.rs:290-313 | As many rows as parallel edges |
| `Edges.GetEdgeLabels` | src/storage/edge.rs:926-945 | Every type at the node with its sorted far ends |
| `Edges.GetAllEdgeLabels` | src/storage/edge.rs:906-945 | The types at the node, the two directions merged without repeats |
| `Edges.AllLabelsSpec` | src/storage/edge.rs:906-945 | A type is listed, once, exactly when it has a neighbour |
| `Edges.SetEdgePropertyAt` | src/storage/edge.rs:334-357 | The tables represent a graph afterwards exactly when the edge existed; its properties are then the only change |
| `Edges.SetAllEdgePropertiesAt` | src/storage/edge.rs:360-376 | Likewise for all properties at once |
| `Edges.PhantomRowCase` | src/storage/edge.rs:334-357 | The failing case: a property set on an edge of the empty graph |
| `Edges.ExhaustedLeavesEntry` | src/storage/edge.rs:80-98 | The failing case: out of numbers on an empty graph, two adjacency entries stay behind |
| `Edges.ScanParallelExact` | src/storage/edge.rs:290-300 | A prefix scan meets the parallel edges, all and only, by number, exactly when the type has no NUL byte or nothing is met |
| `Nodes.SortNamesPermutes` | src/storage/node.rs:22-23 | Sorting keeps the labels and their repeats |
| `Nodes.SortNamesAscend` | src/storage/node.rs:22-23 | Labels come out in byte order |
| `Graph.NameBytesAre` | src/types.rs:1266-1273 | The bytes of a name are the ASCII letters, the digits and the underscore |
| `Nodes.CreateNode` | src/storage/node.rs:14-39 | A fresh id, a readable row, and label counters that stay right exactly when no label is named twice |
| `Nodes.CountersAfterCreate` | src/storage/node.rs:34-36 | Counting every list entry is right exactly for lists without repeats |
| `Nodes.RepeatedLabelMiscounts` | src/storage/node.rs:34-36 | The failing case: a first node with one label named twice |
| `Nodes.GetNode` | src/storage/node.rs:42-56 | The stored record, or NodeNotFound |
| `Nodes.NodeExists` | src/storage/node.rs:59-63 | True exactly for nodes of the graph |
| `Nodes.SetNodeProperty` | src/storage/node.rs:105-128 | One property of one node changes, a Null removing it; errors before any effect |
| `Nodes.RemoveNodeProperty` | src/storage/node.rs:131-149 | One property of one node goes |
| `Nodes.AddNodeLabel` | src/storage/node.rs:177-200 | Whatever its bytes, the label is put in sorted place and its counter follows; no change if it was there |
| `Nodes.LabelSets` | src/storage/node.rs:152-200 | Adding and removing a label are set insertion and removal and keep the list free of repeats |
| `Nodes.SetAllNodeProperties` | src/storage/node.rs:203-223 | The properties of one node are replaced |
| `Nodes.RemoveNodeLabel` | src/storage/node.rs:152-174 | The label set loses the label and its counter follows |
| `Cascade.DeleteIncident` | src/storage/node.rs:80-93 | One cascade loop removes exactly the edges at one side of the node |
| `Cascade.DeleteNode` | src/storage/node.rs:76-102 | The node goes with exactly its incident edges, self-loops and parallel ones included, and all counters follow |
| `Cascade.CountersAfterDelete` | src/storage/node.rs:98-100 | One decrement per label of the record keeps the label counters exact; saturation never bites |
| `Cascade.CountEdgeKeys` | src/schema.rs:162-177 | Counts types over raw keys, or fails on a key without a label |
| `Cascade.MigrateV2ToV3` | src/schema.rs:159-193 | From no counters at all the migration makes each type counter the number of its keys, and fails before writing on a malformed key |
| `Cascade.BackfillMatchesEdges` | src/schema.rs:162-177 | On well-formed rows the number of raw keys of a type is the number of its edges: the invariant the edge operations keep |
| `Cascade.NodeHasEdges` | src/storage/node.rs:66-73 | True exactly when some edge starts or ends at the node |
| `LabelScan.FindNodesByLabel` | src/storage/node.rs:230-274 | Every node whose label column matches, once, in id order |
| `LabelScan.CarriersScanned` | src/storage/node.rs:230-274 | A scan misses no node that carries the label |
| `LabelScan.ScanReturnsOthers` | src/storage/node.rs:238-247 | A scan also returns other nodes: case is folded, `_` matches any character, the colon between two labels included |
| `LabelScan.PercentScansAll` | src/storage/node.rs:238-247 | Asked for the label "%", the scan returns every node |
| `Patterns.ColumnMatchesExact` | src/storage/node.rs:238-247 | For every label asked for, wildcards included, a column matches exactly when some stretch of its labels, joined, is like it |
| `Patterns.NameMatches` | src/storage/node.rs:238-247 | Without "%": exactly when some stretch of labels agrees with the name in length and character by character, case aside and `_` agreeing with any |
| `Patterns.PlainNameMatches` | src/storage/node.rs:238-247 | For a valid name without `_`: exactly when one of the labels is that name, case aside |
| `Patterns.FoldsAlike` | src/storage/node.rs:238-247 | Two characters match without regard to case exactly when equal or the two cases of one ASCII letter |
| `Patterns.ColumnShowsLabels` | src/storage/node.rs:281-286 | Splitting the label column at its colons gives the labels back exactly when none of them has a colon |
| `LabelScan.UncheckedLabelReadsAsTwo` | src/storage/node.rs:177-200 | Given a label with a colon, which its callers never do, add_node_label by itself would write a column that reads as two labels and is scanned for as either |
| `Traverse.TraverseWithDepth` | src/storage/edge.rs:452-496 | With a cap the result is a prefix of the result without |
| `Traverse.TraverseNodes` | src/storage/edge.rs:398-444 | The nodes of the search with depths, in the same order, without their hop counts |
| `Traverse.CapLeavesPrefix` | src/storage/edge.rs:440-444 | A cap leaves a prefix of as many hits as it says, a cap of 0 of one |
| `Traverse.AllHitsExact` | src/storage/edge.rs:398-496 | Without a cap: exactly the nodes other than the start next to a node at distance k - 1 for some k in the hop range, once, with the least such k, nearest first |
| `Traverse.HitsAreDistances` | src/storage/edge.rs:452-496 | With at most one hop as lower bound: all nodes within the upper bound, with their distances |
| `Paths.PathReaches` | src/storage/edge.rs:760-809 | A path of k hops is a way to reach its end in k hops |
| `Paths.ReachHasPath` | src/storage/edge.rs:760-809 | Whatever is reached in k hops is the end of a path of k hops |
| `Paths.PathWritten` | src/storage/edge.rs:760-809 | Paths are the lists of nodes in which each two neighbours are ends of an edge of the type, in a direction asked for |
| `Paths.ReachWritten` | src/storage/edge.rs:760-809 | A node is reached in k hops exactly when such a list of k + 1 nodes leads to it |
| `Shortest.Reconstruct` | src/storage/edge.rs:792-802 | Following parents ends, since depth falls, and gives a path as long as the depth of its end |
| `Shortest.ShortestPath` | src/storage/edge.rs:760-809 | A path of least length if one of at most max_hops exists; None exactly when none does |
| `AllShortest.AllPaths` | src/storage/edge.rs:881-901 | The stack of partial paths yields every path along the recorded parents |
| `AllShortest.BelowExact` | src/storage/edge.rs:881-901 | With complete parents the paths along them are exactly the shortest paths |
| `AllShortest.SearchOver` | src/storage/edge.rs:841-875 | Though nothing is queued once the end is met, the parents of every node up to its depth are complete |
| `AllShortest.AllShortestPaths` | src/storage/edge.rs:815-902 | Exactly the paths of least length, if that is at most max_hops, each once |
| `TrailSearch.CheckFilters` | src/storage/edge.rs:690-702 | True exactly when every filter is among the entries of the edge: a property it lacks fails |
| `TrailSearch.DirectedEdges` | src/storage/edge.rs:618-668 | The parallel edges to a neighbour; the fallback for a missing row is never taken |
| `TrailSearch.ExpandFrame` | src/storage/edge.rs:602-751 | One stack frame makes the visits and pushes the frames the specification says, under both caps |
| `TrailSearch.TraversePaths` | src/storage/edge.rs:560-754 | The stack search ends on every graph and returns the specified visits run under work and result cap |
| `TrailsExact.CandidatesSpec` | src/storage/edge.rs:607-668 | The edge visits from a node are exactly the steps direction and labels allow, each as often as its type is asked for |
| `TrailsExact.TraceExact` | src/storage/edge.rs:602-751 | Below a path the search reports exactly the longer trails in the hop range, each as often as the product of how often its further types are asked for |
| `TrailsExact.AnswersExact` | src/storage/edge.rs:560-754 | Uncapped, exactly the edge-distinct trails of allowed length that respect label, direction and filters at each hop, for every label list; with distinct labels each once, with repeats as often as the product of the repeats |
| `TrailsExact.RowsWritten` | src/storage/edge.rs:560-754 | The rows of a search without caps, said in full: start, direction, type, every filtered property of every edge, no edge twice, length, end |
| `TrailsExact.RepeatedLabelRepeatsRows` | src/storage/edge.rs:615-616 | One relationship under a label named twice gives two rows |
| `TrailsExact.WorkCapExact` | src/storage/edge.rs:670-684 | Without a result cap an error iff the unlimited run visits more than max_work edges, otherwise the unlimited answer |
| `TrailsExact.ResultCapPrefix` | src/storage/edge.rs:712-740 | A result cap gives a prefix of the uncapped answer, or the work error |
| `TrailsExact.WorkErrorExact` | src/storage/edge.rs:712-740 | Under both caps the work error comes exactly when there are more visits than allowed and those allowed do not fill the result cap |
| `TrailOrder.RowsInOrder` | src/storage/edge.rs:640-754 | For types named once, the order of the rows, hence what a cap leaves: a node's own steps come first in their order, and of what lies behind two steps the later comes first |
| `TrailOrder.StepsInOrder` | src/storage/edge.rs:640-690 | The steps from a node: by type as asked for, by neighbour, along an edge before against it, by number |
| `TrailOrder.NeighborsInOrder` | src/storage/edge.rs:207-240 | Neighbours by id; in both directions those along an edge first |
| `TrailOrder.TypesInOrder` | src/storage/edge.rs:906-945 | Types at a node in byte order; in both directions those of outgoing edges first |
| `Reachability.TrailsReachAll` | src/storage/edge.rs:560-754 | For one label and no filters trails end in exactly the nodes within reach |
| `Reachability.HitsReachAll` | src/storage/edge.rs:398-444 | Breadth-first search finds exactly the nodes within reach, other than the start |
| `Reachability.SearchesAgree` | src/storage/edge.rs:398-809 | For one label and no filters shortest_path succeeds for exactly the nodes that each of the two traversals finds |
| `Index.CheckDefExact` | src/storage/index.rs:28-47 | A definition passes exactly when label and properties are valid names without repeats |
| `Index.CheckDefErrors` | src/storage/index.rs:28-47 | Otherwise the error is that of the first column that is invalid or repeated, after the label |
| `Index.TableNameText` | src/storage/index.rs:28-47 | Names begin with `node_idx$` and have a `$` before each column |
| `Index.TableNameRoundTrip` | src/storage/index.rs:538-551 | Parsing a table name for a label gives the properties for its own label and nothing for another |
| `Index.TableNameInjective` | src/storage/index.rs:28-47 | Distinct indexes have distinct table names, underscores in names or not |
| `Index.SharedTableExact` | src/storage/index.rs:28-47 | Two indexes are one table to SQLite exactly when label and properties differ at most in case |
| `Index.CompositeIndexKey` | src/storage/index.rs:86-103 | The loop writes the concatenated values and the id |
| `Index.KeyShowsId` | src/storage/index.rs:225-229 | The trailing eight bytes are the id |
| `Index.KeyPrefixExact` | src/storage/index.rs:234-289 | A key extends the encoding of some values exactly when its own leading values are those, the id never taking part; needs a prefix-free encoding |
| `Index.CollectValues` | src/storage/index.rs:342-348 | The covered values, or none when one is missing |
| `Index.ListIndexesForLabel` | src/storage/index.rs:445-478 | Exactly the column lists of the indexes of the label |
| `Index.UpdateIndexesForLabel` | src/storage/index.rs:357-383 | Every table of the label loses the old entry and gains the new one; other tables are untouched |
| `Index.UpdateIndexesForNode` | src/storage/index.rs:392-403 | The same for all labels of a node, named twice or not |
| `Index.RemoveIndexesForLabel` | src/storage/index.rs:406-421 | Every table of the label loses the entry |
| `Index.RemoveIndexesForNode` | src/storage/index.rs:424-434 | Every table of every label of the node loses the entry |
| `IndexStore.IndexKeysById` | src/storage/index.rs:225-229 | The entries that end in an id are that node's own |
| `IndexStore.TouchExact` | src/storage/index.rs:357-383 | Old entry out, new entry in leaves the right table exactly when the new entry is the node's own |
| `IndexStore.IndexesTouched` | src/storage/index.rs:392-403 | Agreement of all indexes after maintenance for one node: kept exactly when the new entries are right |
| `IndexStore.IndexesAfterCreate` | src/transaction.rs:271-272 | Creating a node keeps index agreement |
| `IndexStore.IndexesAfterDelete` | src/transaction.rs:279-282 | Deleting a node keeps index agreement |
| `IndexStore.IndexesAfterLabels` | src/cypher/executor/write.rs:502-505 | Putting in the entries under all labels after some were added keeps index agreement |
| `IndexStore.IndexesAfterLabelCut` | src/cypher/executor/write.rs:788-792 | Taking out the entries under a label before it goes keeps index agreement, whether the node had it or not |
| `IndexStore.SetPropertyIndexes` | src/transaction.rs:292-305 | Setting a property keeps index agreement exactly when the value is not Null or no index of the labels covers the key with all else present |
| `IndexStore.NullLeavesEntry` | src/transaction.rs:294-295 | The failing case: a Null is indexed and not stored |
| `IndexStore.Backfill` | src/storage/index.rs:131-153 | The loop adds one entry for each listed node that has all covered properties |
| `IndexStore.BackfillExact` | src/storage/index.rs:131-153 | A backfilled table is right exactly when the scan returned no other node with all covered properties |
| `IndexStore.ScanAgreesByLabels` | src/storage/index.rs:131-153 | The condition in terms of labels: no node that has all covered properties carries the name in another case or, where the name has a `_`, a stretch of labels that fits it, without carrying the label |
| `IndexStore.CreateCompositeIndex` | src/storage/index.rs:110-156 | Errors as in the source and in CREATE TABLE, which ignores case; the new index agrees with the nodes exactly when the scan does |
| `IndexStore.DropCompositeIndex` | src/storage/index.rs:159-170 | The table goes, or IndexNotFound |
| `IndexStore.PrefixLookup` | src/storage/index.rs:234-289 | Each node of the index found with those k leading values exactly once and nothing else, for every k up to the width; found is the index of that name, or the one that differs in case only |
| `IndexStore.LookupIsFilteredScan` | src/storage/index.rs:234-289 | A lookup equals a filtered label scan exactly when no scanned node lacks a covered property; at full width it always does |
| `IndexStore.ShortLookupMisses` | src/storage/index.rs:234-289 | The failing case: a node with the first of two covered properties |
| `IndexStore.CaseVariantFound` | src/storage/index.rs:76-83 | With (Person, name) alone, (person, name) is no index and is still found |
| `IndexStore.IndexLookup` | src/storage/index.rs:184-229 | Exactly the nodes with the label and the value of the index found, once each |
| `Calendar.YearLength` | src/temporal.rs:2349-2359 | 365 days or, by the Gregorian rule, 366 |
| `Calendar.MonthLengths` | src/temporal.rs:2349-2359 | The lengths of the twelve months |
| `Calendar.LeapYears` | src/temporal.rs:2349-2359 | Every fourth year is a leap year, but of the years that end a century only every fourth |
| `Calendar.GregorianCycle` | src/temporal.rs:2349-2359 | 400 years have 146097 days |
| `Calendar.DayOfEpoch` | src/temporal.rs:2349-2359 | The day number of 1970-01-01 |
| `Calendar.MonthAfterMonth` | src/temporal.rs:2349-2359 | A month begins where the one before ends |
| `Calendar.DayNumberOrder` | src/temporal.rs:2349-2359 | Day numbers order dates as the calendar does; no two dates share one |
| `Calendar.DateExists` | src/temporal.rs:2349-2359 | Every number is the day number of a date |
| `Calendar.DaysInMonthIsMonthLength` | src/temporal.rs:2349-2359 | The difference of firsts is the length of the month |
| `Calendar.AddMonthsIsShift` | src/temporal.rs:2362-2369 | Same day of the target month, or its last |
| `Calendar.ShiftIsLatest` | src/temporal.rs:2362-2369 | The latest date of the target month whose day is not past the one there was |
| `Calendar.ShiftMonotone` | src/temporal.rs:2362-2369 | More months, clamped or not, lead to a later date |
| `Calendar.MonthDiffExtremal` | src/temporal.rs:2378-2390 | Forward the largest count that does not pass the target, back the smallest |
| `Calendar.MonthDiffUnique` | src/temporal.rs:2378-2390 | No other count is extremal in that sense, so the property defines the function |
| `Durations.MonthsReachBeforeEnd` | src/temporal.rs:2349-2369 | No panic for dates before the last month of all |
| `Durations.BetweenConserves` | src/temporal.rs:2395-2475 | Months, days and clock part lead from left exactly to right, in UTC when both have offsets, borrow step or not |
| `Durations.BetweenSigns` | src/temporal.rs:2445-2455 | For all pairs: months and days agree in sign; days and clock part exactly unless the clocks are more than a day apart the other way; months and clock part exactly unless it runs the other way with no day, or not days enough, to borrow from |
| `Durations.LocalSigns` | src/temporal.rs:2445-2455 | Without offsets, or with equal ones, days and clock part always agree, and months unless whole months lead to the very date |
| `Durations.MixedSigns` | src/temporal.rs:2445-2455 | 2023-01-15T12:00 to 2023-02-15T11:00 is one month less an hour |
| `Durations.BetweenTimes` | src/temporal.rs:2405-2425 | Without two dates only the clocks count, and swapping negates |
| `Durations.TimesInSeconds` | src/temporal.rs:2586-2597 | With a time on one side, and not two dates, inSeconds is the right time of day less the left, less the difference of offsets when both have one; between is the same |
| `Durations.NothingToCompare` | src/temporal.rs:2478-2617 | Months and days need two dates, the others two dates or a time; otherwise zero |
| `Durations.ElapsedWritten` | src/temporal.rs:2572-2617 | Between two dates: days, times of day and offsets that make up the elapsed time |
| `Durations.AddWritten` | src/cypher/eval/temporal_ops.rs:97-126 | Adding any duration: months move the date, days and clock part the time line |
| `Durations.DateAddWritten` | src/cypher/eval/temporal_ops.rs:61-84 | Adding any duration to a date: months, days, and the whole days of seconds and of nanoseconds, each cut toward zero |
| `Durations.BetweenThenAdd` | src/cypher/eval/temporal_ops.rs:97-126 | l + duration.between(l, r) == r for a date and time l without offset |
| `Durations.BetweenThenAddDate` | src/cypher/eval/temporal_ops.rs:61-84 | For a date l the sum is the date of r exactly when no day was borrowed or r is less than a second past midnight |
| `Durations.BorrowedDayLost` | src/cypher/eval/temporal_ops.rs:80-84 | The failing case: half a day back |
| `Durations.BetweenThenAddInstant` | src/cypher/eval/temporal_ops.rs:127-152 | With offsets the sum is the same instant in the left offset |
| `Durations.InSecondsExact` | src/temporal.rs:2572-2617 | In a build with overflow checks: the whole elapsed time, exactly where the days and the total, in nanoseconds, are 64-bit numbers: always up to 106748 days, never from 106752 on |
| `Durations.WrappedInSecondsExact` | src/temporal.rs:2599-2603 | In a build whose 64-bit arithmetic wraps around, the total is right exactly where it is a 64-bit number itself, even after the product of the days wrapped |
| `Durations.BetweenSpansInSeconds` | src/temporal.rs:2428-2617 | between and inSeconds span the same time |
| `Durations.InSecondsAntisymmetric` | src/temporal.rs:2572-2617 | Swapping negates; one direction alone overflows for a single number |
| `Durations.InDaysTruncates` | src/temporal.rs:2526-2569 | The elapsed time of inSeconds in days, cut toward zero |
| `Durations.InMonthsExtremal` | src/temporal.rs:2478-2523 | The most months that do not overshoot, dates compared first and clocks second |
| `Durations.ReachedIsElapsed` | src/temporal.rs:2478-2523 | Comparing dates first and clocks second is comparing instants when the clocks are within a day |
| `Durations.InMonthsByInstant` | src/temporal.rs:2478-2523 | By instants the count is right exactly when the clock difference lies between the days to the month step taken and those to the next one |
| `Durations.OffsetsCanMislead` | src/temporal.rs:2478-2523 | Offsets far apart: a month and a day counted as 0 months |
| `DurationText.Display` | src/temporal.rs:1700-1768 | Writing field by field gives the text that TextWritten describes |
| `TextLaws.TextWritten` | src/temporal.rs:1700-1768 | The printed text of every duration, from the only years, months, hours, minutes, seconds and fraction there are for it: fields that are not zero, in order, one sign for seconds and fraction, PT0S for nothing |
| `TextLaws.FractionEnds` | src/temporal.rs:1745-1758 | With nanoseconds the text ends in a digit that is not zero, and an S |
| `TextLaws.OneAndAHalf` | src/temporal.rs:1745-1758 | One and a half seconds are PT1.5S |
| `TextLaws.DigitsUnique` | src/temporal.rs:1700-1768 | Numbers have no zero in front |
| `DurationText.ParseFracNanos` | src/temporal.rs:321-334 | Pads or cuts to nine digits and reads them |
| `DurationText.FractionRoundTrip` | src/temporal.rs:321-334 | Trimmed fractions of up to nine digits are read back |
| `DurationText.DigitsRoundTrip` | src/temporal.rs:1700-1768 | Decimal numbers are read back |
| `DurationParsing.ParseDurationDatePart` | src/temporal.rs:2065-2135 | The index loop reads field by field as specified, errors included; what fields add up to is DatePartsRead |
| `DurationParsing.ParseDurationTimePart` | src/temporal.rs:2138-2232 | The index loop reads the fields behind the T as specified, errors included; what they add up to is TimePartsRead |
| `DurationParsing.DecimalSeconds` | src/temporal.rs:2188-2218 | A decimal number in front of an S means its whole part and its fraction, cut to nine digits, both under the one sign, -0 included |
| `DurationParsing.SignOfParts` | src/temporal.rs:2188-2218 | Whatever is accepted, a leading minus makes neither part positive and its absence neither negative |
| `DurationParsing.DateFormRead` | src/temporal.rs:1868-1905 | YYYY-MM-DD stands for as many years, months and days |
| `DurationParsing.ClockFormRead` | src/temporal.rs:1919-1968 | hh:mm:ss.fff stands for that time |
| `DurationParsing.FormatsAgree` | src/temporal.rs:1941-1956 | For every text: the colon format and the S field read the same seconds exactly when no minus sign stands in front of a fraction that shows, or one part is no number anyway |
| `DurationParsing.MinusBehindColon` | src/temporal.rs:1941-1956 | The failing case: behind a colon a minus sign does not reach the fraction: -1.5 means -0.5 |
| `DurationParsing.FromIsoString` | src/temporal.rs:1848-1982 | Prefix, split at the T, and the two parts in designator, date or colon format; whole texts are read as TextOfParts says |
| `ReadingLaws.TextOfParts` | src/temporal.rs:1848-1982 | P or p, whole-number fields in any order and either case, T or t and more: years of twelve months, weeks of seven days, hours of 3600 seconds add up |
| `ReadingLaws.DatePartsRead` | src/temporal.rs:2065-2135 | Any list of date fields adds up, whatever follows is read on |
| `ReadingLaws.TimePartsRead` | src/temporal.rs:2138-2232 | Any list of time fields adds up, whatever follows is read on |
| `ReadingLaws.DecimalPartRead` | src/temporal.rs:2188-2218 | A number of seconds with a fraction counts alike under S and s |
| `ReadingLaws.OtherUnits` | src/temporal.rs:2065-2232 | Any other unit is an error |
| `ReadingLaws.MissingNumber` | src/temporal.rs:2065-2232 | A unit without a number is an error |
| `ReadingLaws.TwoWeeks` | src/temporal.rs:2107-2110 | P2W and p2w are 14 days |
| `ReadingLaws.TrailingNumber` | src/temporal.rs:2065-2135 | A number without a unit at the end is passed over |
| `ReadingLaws.NotDurations` | src/temporal.rs:1849-1855 | Refused as no duration exactly when it does not begin with P or p |
| `ReadingLaws.IntegersRead` | src/temporal.rs:1868-1905 | A printed integer is read back exactly when it fits 64 bits, with a plus sign or without |
| `ReadingLaws.FractionsRead` | src/temporal.rs:321-334 | Digits behind the point are nanoseconds, with zeros up to nine |
| `ReadingLaws.LongFractionsRead` | src/temporal.rs:321-334 | From the tenth digit on nothing counts, digit or not |
| `ReadingLaws.PlusInFraction` | src/temporal.rs:321-334 | A plus sign behind the point is passed over and takes the place of a digit |
| `ReadingLaws.ColonsRead` | src/temporal.rs:1908-1968 | hh:mm alone; with a fourth piece the seconds are passed over |
| `DurationParsing.NanosReadExact` | src/temporal.rs:1745-1758 | The fraction is read back exactly when it has at most nine digits and the sign in front of the seconds |
| `DurationParsing.RoundTrip` | src/temporal.rs:1700-1982 | Printing then parsing keeps months and days always, and the total of seconds and nanoseconds exactly when the nanoseconds show |
| `DurationParsing.NotReadBack` | src/temporal.rs:1700-1982 | Failing cases: ten seconds less one and a half, and all with more than a second of nanoseconds against the seconds shown |
| `DurationParsing.SmallNanosShown` | src/temporal.rs:1700-1768 | Nanoseconds below a second show for every mix of signs |

## Left out

- SQLite itself: files, locking, snapshots, PRAGMAs.
- MessagePack bytes; floats, temporal values and maps as property values (`Graph.Value` has the kinds that size and equality tell apart).
- UTF-8 checks on labels read back from keys: stored labels are ASCII.
- ListIndexesForLabel: assumes that every index table has a `$` name; legacy `_`-delimited tables (src/storage/index.rs:52-74), and `list_all_indexes`, are ambiguous by their own documentation.
- FindNodesByLabel: does not model that `_` takes one character where the model takes one byte, that SQLite ends a pattern at a NUL byte and refuses one beyond 50000 bytes; stored labels are ASCII without NUL.
- AllHitsExact: says nothing of the order among hits with the same hop count, which is that of `Traverse.Search`.
- Full-text indexes: their behaviour lives in SQLite.
- `create_node` with a single label, `set_edge_property` on the first parallel edge, `get_edge_properties`, the map forms of SET within MERGE: variants that add no harder property.
- Migration from schema 1 to 2, and the version check.
- TraversePaths: does not model the cut of path lengths to 32 bits, which only paths of 2^32 hops would show.
- Parse and plan caches, the schema epoch, cost estimates, the query language.
- Named time zones in durations: they depend on time-zone data.
- AddDuration: does not model the 32-bit limit on months, dates at the very ends of chrono's range, nor leap seconds.
- ParseDurationDatePart: answers `NotModelled` for fractions of years, months, weeks and days and for whole numbers beyond 2^53, which the source rounds in floating point.
- ParseDurationTimePart: answers `NotModelled` for fractions of hours and minutes and for whole numbers of them beyond 2^53, likewise.
- FromIsoString: sums fields in unbounded integers, where the source's are 64 bits wide.
- `CypherDuration::from_map`: floating point with rounding.
