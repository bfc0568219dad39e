/** Edge writes and edge reads (src/storage/edge.rs:68-396, 904-945). */
module Edges {
  import opened Prelude
  import opened Bytes
  import opened Encoding
  import opened Kv
  import opened Graph
  import opened Keys
  import opened Db
  import opened Stats

  // ---------------------------------------------------------------- edge-set algebra

  lemma InsertEffect(edges: set<Edge>, e: Edge, id: u64, lbl: Name, out: bool)
    ensures FarEnds(edges + {e}, id, lbl, out) ==
            FarEnds(edges, id, lbl, out) + (if Near(e, out) == id && e.lbl == lbl then {Far(e, out)} else {})
  {
    var a, b := FarEnds(edges + {e}, id, lbl, out), FarEnds(edges, id, lbl, out);
    forall x | x in b ensures x in a {
      var f :| f in edges && Near(f, out) == id && f.lbl == lbl && x == Far(f, out);
      assert f in edges + {e};
    }
  }

  lemma RemoveGroupEffect(edges: set<Edge>, src: u64, dst: u64, lbl: Name, id: u64, l: Name, out: bool)
    ensures var edges' := edges - Parallel(edges, src, dst, lbl);
            FarEnds(edges', id, l, out) ==
            if id == (if out then src else dst) && l == lbl
            then FarEnds(edges, id, l, out) - {if out then dst else src}
            else FarEnds(edges, id, l, out)
  {
    var edges' := edges - Parallel(edges, src, dst, lbl);
    var a, b := FarEnds(edges', id, l, out), FarEnds(edges, id, l, out);
    forall x | x in b && !(id == (if out then src else dst) && l == lbl && x == (if out then dst else src))
      ensures x in a
    {
      var f :| f in edges && Near(f, out) == id && f.lbl == l && x == Far(f, out);
      assert f in edges';
    }
  }

  /** Removing one of several parallel edges changes no neighbourhood. */
  lemma RemoveOneEffect(edges: set<Edge>, e: Edge, id: u64, l: Name, out: bool)
    requires Parallel(edges - {e}, e.src, e.dst, e.lbl) != {}
    ensures FarEnds(edges - {e}, id, l, out) == FarEnds(edges, id, l, out)
  {
    var other :| other in Parallel(edges - {e}, e.src, e.dst, e.lbl);
    var a, b := FarEnds(edges - {e}, id, l, out), FarEnds(edges, id, l, out);
    forall x | x in b ensures x in a {
      var f :| f in edges && Near(f, out) == id && f.lbl == l && x == Far(f, out);
      var g := if f == e then other else f;
      assert g in edges - {e} && Near(g, out) == id && g.lbl == l && x == Far(g, out);
    }
  }

  lemma FarEndsIffParallel(edges: set<Edge>, src: u64, dst: u64, lbl: Name)
    ensures dst in FarEnds(edges, src, lbl, true) <==> Parallel(edges, src, dst, lbl) != {}
    ensures src in FarEnds(edges, dst, lbl, false) <==> Parallel(edges, src, dst, lbl) != {}
  {
    if Parallel(edges, src, dst, lbl) == {} {
      assert forall e :: e in edges && e.src == src && e.dst == dst && e.lbl == lbl ==>
          e in Parallel(edges, src, dst, lbl);
    } else {
      var e :| e in Parallel(edges, src, dst, lbl);
      assert e in edges && Near(e, true) == src && Near(e, false) == dst;
      assert Far(e, true) in FarEnds(edges, src, lbl, true);
      assert Far(e, false) in FarEnds(edges, dst, lbl, false);
    }
  }

  // ---------------------------------------------------------------- adjacency rows

  lemma SortedWordsIs(ids: seq<u64>, s: set<u64>)
    requires StrictlySorted(ids) && Elems(ids) == s
    ensures ids == SortedWords(s)
  {
    SortedUnique(ids, SortedWords(s));
  }

  /** The decoded row of one (node, type); empty when there is no row. */
  method ReadAdjacency(t: Table<Key>, key: Key, ghost far: set<u64>) returns (ids: seq<u64>)
    requires AdjEntry(t, key, far)
    ensures ids == SortedWords(far)
  {
    if key in t {
      IdListRoundTrip(SortedWords(far));
      var d := DecodeIdList(t[key]);
      return d.value;
    }
    SortedWordsIs([], far);
    return [];
  }

  method AddToAdjacency(t: Table<Key>, key: Key, id: u64, ghost far: set<u64>) returns (t': Table<Key>)
    requires AdjEntry(t, key, far)
    ensures t' == SetAdj(t, key, far + {id})
  {
    var ids := ReadAdjacency(t, key, far);
    ids := InsertIntoSorted(ids, id);
    SortedWordsIs(ids, far + {id});
    var data := EncodeIdList(ids);
    t' := t[key := data];
  }

  method RemoveFromAdjacency(t: Table<Key>, key: Key, id: u64, ghost far: set<u64>) returns (t': Table<Key>)
    requires AdjEntry(t, key, far)
    ensures t' == SetAdj(t, key, far - {id})
  {
    t' := t;
    if key in t {
      var ids := ReadAdjacency(t, key, far);
      var removed;
      removed, ids := RemoveFromSorted(ids, id);
      SortedWordsIs(ids, far - {id});
      if removed {
        if ids == [] {
          assert far - {id} == Elems([]);
          t' := t - {key};
        } else {
          assert ids[0] in Elems(ids);
          var data := EncodeIdList(ids);
          t' := t[key := data];
        }
      } else {
        assert id !in Elems(SortedWords(far));
        assert far - {id} == far;
      }
    }
  }

  // ---------------------------------------------------------------- create

  /** The part of the metadata that edge operations leave alone. */
  function NodeSide(meta: Meta): Meta {
    map k | k in meta && (k.LabelCount? || k.NextNodeId? || k.SchemaVersion?) :: meta[k]
  }

  lemma NewRow(t: Table<Props>, edges: map<Edge, Props>, e: Edge)
    requires EdgeRowsOk(t, edges) && ValidName(e.lbl) && e !in edges
    ensures EdgeKey(e) !in t
  {
    if EdgeKey(e) in t {
      assert RowOf(EdgeKey(e), edges.Keys);
      EdgeKeyRoundTrip(e);
    }
  }

  lemma RowsAfterInsert(t: Table<Props>, edges: map<Edge, Props>, e: Edge, props: Props)
    requires EdgeRowsOk(t, edges) && ValidName(e.lbl)
    ensures EdgeRowsOk(t[EdgeKey(e) := props], edges[e := props])
  {
    var t', edges' := t[EdgeKey(e) := props], edges[e := props];
    EdgeKeyRoundTrip(e);
    forall f | f in edges' ensures HasRow(t', f, edges'[f]) {
      EdgeKeyRoundTrip(f);
      assert f != e ==> HasRow(t, f, edges[f]);
    }
    forall k | k in t' ensures RowOf(k, edges'.Keys) {
      assert k != EdgeKey(e) ==> RowOf(k, edges.Keys);
    }
  }

  /** Adding the far end of an edge to both adjacency tables. */
  lemma AdjAfterInsert(t: Table<Key>, edges: set<Edge>, e: Edge, out: bool)
    requires AdjOk(t, edges, out)
    ensures AdjOk(SetAdj(t, AdjKey(Near(e, out), e.lbl), FarEnds(edges, Near(e, out), e.lbl, out) + {Far(e, out)}),
                  edges + {e}, out)
  {
    forall i: u64, l: Name ensures i != Near(e, out) || l != e.lbl ==>
        FarEnds(edges + {e}, i, l, out) == FarEnds(edges, i, l, out)
    {
      InsertEffect(edges, e, i, l, out);
    }
    InsertEffect(edges, e, Near(e, out), e.lbl, out);
    AdjUpdate(t, edges,
              SetAdj(t, AdjKey(Near(e, out), e.lbl), FarEnds(edges, Near(e, out), e.lbl, out) + {Far(e, out)}),
              edges + {e}, Near(e, out), e.lbl, out);
  }

  lemma CountAfterInsert(edges: set<Edge>, e: Edge, next: u64)
    requires SeqsUnique(edges) && SeqsBelow(edges, next) && e !in edges && e.num == next
    ensures SeqsUnique(edges + {e}) && SeqsBelow(edges + {e}, next + 1)
    ensures |OfType(edges + {e}, e.lbl)| == |OfType(edges, e.lbl)| + 1 <= next + 1
    ensures forall l: Name :: l != e.lbl ==> OfType(edges + {e}, l) == OfType(edges, l)
  {
    assert OfType(edges + {e}, e.lbl) == OfType(edges, e.lbl) + {e};
    EdgeCountBound(edges, next);
    SubsetCardinality(OfType(edges, e.lbl), edges);
  }

  predicate ValidKeys(props: Props) {
    forall k :: k in props.Keys ==> ValidName(k)
  }

  /** The edge tables with the far ends of (src, dst, lbl) entered in both adjacency tables. */
  ghost function Linked(t: EdgeTables, edges: set<Edge>, src: u64, dst: u64, lbl: Name): EdgeTables {
    t.(out := SetAdj(t.out, AdjKey(src, lbl), FarEnds(edges, src, lbl, true) + {dst}),
       in_ := SetAdj(t.in_, AdjKey(dst, lbl), FarEnds(edges, dst, lbl, false) + {src}))
  }

  /** The read-modify-writes of `create_edge` on the two adjacency tables. */
  method LinkEndpoints(conn: Connection, src: u64, dst: u64, lbl: Name)
    requires conn.EdgesValid()
    modifies conn`adjOut, conn`adjIn
    ensures conn.EdgeState() == Linked(old(conn.EdgeState()), conn.edgeSet.Keys, src, dst, lbl)
  {
    hide AdjKey, FarEnds, SetAdj, AdjEntry, EdgeRowsOk, NumbersOk, TypeCountsOk;
    ghost var edges := conn.edgeSet.Keys;
    assert AdjEntry(conn.adjOut, AdjKey(src, lbl), FarEnds(edges, src, lbl, true));
    assert AdjEntry(conn.adjIn, AdjKey(dst, lbl), FarEnds(edges, dst, lbl, false));
    conn.adjOut := AddToAdjacency(conn.adjOut, AdjKey(src, lbl), dst, FarEnds(edges, src, lbl, true));
    conn.adjIn := AddToAdjacency(conn.adjIn, AdjKey(dst, lbl), src, FarEnds(edges, dst, lbl, false));
  }

  /** What `create_edge` does to the edge tables and the graph they represent. On success the
      graph gains exactly one edge, numbered by the counter, and no row is overwritten. When the
      numbers have run out the adjacency rows are written already: the tables then still
      represent the graph only if the edge has a parallel one, so the caller must roll back. */
  ghost predicate CreateEdgePost(t: EdgeTables, edges: map<Edge, Props>, t': EdgeTables, edges': map<Edge, Props>,
                                 src: u64, dst: u64, lbl: Name, props: Props, r: Result<()>)
  {
    if !ValidName(lbl) || !ValidKeys(props) then
      r == Err(InvalidName) && t' == t && edges' == edges
    else if NextSeq(t.meta) + 1 == U64_LIMIT then
      && r == Err(SpaceExhausted) && edges' == edges && t'.rows == t.rows && NextSeq(t'.meta) == NextSeq(t.meta)
      && (EdgesOk(t', edges) <==> Parallel(edges.Keys, src, dst, lbl) != {})
    else
      var e := Edge(src, dst, lbl, NextSeq(t.meta));
      && r == Ok(())
      && EdgeKey(e) !in t.rows
      && edges' == edges[e := props]
      && EdgesOk(t', edges')
      && NextSeq(t'.meta) == NextSeq(t.meta) + 1
  }

  /** `create_edge`. */
  method CreateEdge(conn: Connection, src: u64, dst: u64, lbl: Name, props: Props) returns (r: Result<()>)
    requires conn.EdgesValid()
    modifies conn`adjOut, conn`adjIn, conn`edgeProps, conn`meta, conn`edgeSet
    ensures CreateEdgePost(old(conn.EdgeState()), old(conn.edgeSet), conn.EdgeState(), conn.edgeSet,
                           src, dst, lbl, props, r)
    ensures NodeSide(conn.meta) == NodeSide(old(conn.meta))
  {
    if !ValidName(lbl) || !ValidKeys(props) {
      return Err(InvalidName);
    }
    r := InsertEdge(conn, src, dst, lbl, props);
  }

  method InsertEdge(conn: Connection, src: u64, dst: u64, lbl: Name, props: Props) returns (r: Result<()>)
    requires conn.EdgesValid() && ValidName(lbl) && ValidKeys(props)
    modifies conn`adjOut, conn`adjIn, conn`edgeProps, conn`meta, conn`edgeSet
    ensures CreateEdgePost(old(conn.EdgeState()), old(conn.edgeSet), conn.EdgeState(), conn.edgeSet,
                           src, dst, lbl, props, r)
    ensures NodeSide(conn.meta) == NodeSide(old(conn.meta))
  {
    hide EdgesOk, EdgeKey, NodeSide, Counter, NextSeq, ValidName, ValidKeys, SetCounter, OfType, CreateEdgePost,
         Linked;
    ghost var before, edges := conn.EdgeState(), conn.edgeSet;
    EdgesOkParts(before, edges);
    LinkEndpoints(conn, src, dst, lbl);
    var next := NextEdgeSequence(conn);
    ghost var mid := conn.meta;
    MetaOtherKept(before.meta, mid);
    if next.Err? {
      ExhaustedState(before, conn.EdgeState(), edges, src, dst, lbl, props);
      return Err(next.error);
    }
    var e := Edge(src, dst, lbl, next.value);
    conn.edgeProps := conn.edgeProps[EdgeKey(e) := props];
    CountFits(mid, edges.Keys, lbl, next.value);
    IncrementCount(conn, EdgeTypeCount(lbl));
    EdgeCounterElsewhere(mid, lbl, Counter(mid, EdgeTypeCount(lbl)) + 1);
    conn.edgeSet := conn.edgeSet[e := props];
    CreatedState(before, mid, conn.EdgeState(), edges, e, props);
    return Ok(());
  }

  lemma EdgesOkParts(t: EdgeTables, edges: map<Edge, Props>)
    requires EdgesOk(t, edges)
    ensures NumbersOk(t.meta, edges.Keys) && TypeCountsOk(t.meta, edges.Keys)
    ensures AdjOk(t.out, edges.Keys, true) && AdjOk(t.in_, edges.Keys, false)
    ensures EdgeRowsOk(t.rows, edges) && forall e :: e in edges ==> ValidName(e.lbl)
  {
  }

  lemma EdgeCounterElsewhere(meta: Meta, lbl: Name, n: u64)
    ensures NodeSide(SetCounter(meta, EdgeTypeCount(lbl), n)) == NodeSide(meta)
    ensures NextSeq(SetCounter(meta, EdgeTypeCount(lbl), n)) == NextSeq(meta)
  {
  }

  lemma CountFits(meta: Meta, edges: set<Edge>, lbl: Name, next: u64)
    requires TypeCountsOk(meta, edges) && SeqsUnique(edges) && SeqsBelow(edges, next)
    ensures Counter(meta, EdgeTypeCount(lbl)) == |OfType(edges, lbl)| <= next
  {
    assert CounterIs(meta, EdgeTypeCount(lbl), |OfType(edges, lbl)|);
    CounterOfIs(meta, EdgeTypeCount(lbl), |OfType(edges, lbl)|);
    EdgeCountBound(edges, next);
    SubsetCardinality(OfType(edges, lbl), edges);
  }

  /** The tables a successful `create_edge` leaves represent the graph with the new edge. */
  lemma CreatedState(t: EdgeTables, mid: Meta, t': EdgeTables, edgeSet: map<Edge, Props>, e: Edge, props: Props)
    requires EdgesOk(t, edgeSet) && ValidName(e.lbl) && ValidKeys(props) && e.num == NextSeq(t.meta)
    requires NextSeq(t.meta) + 1 < U64_LIMIT && NextSeq(mid) == NextSeq(t.meta) + 1
    requires NextEdgeSeq in mid && |mid[NextEdgeSeq]| == 8
    requires TypeCountsOk(mid, edgeSet.Keys)
    requires Counter(mid, EdgeTypeCount(e.lbl)) == |OfType(edgeSet.Keys, e.lbl)| <= e.num
    requires var linked := Linked(t, edgeSet.Keys, e.src, e.dst, e.lbl);
             t' == EdgeTables(linked.out, linked.in_, t.rows[EdgeKey(e) := props],
                              SetCounter(mid, EdgeTypeCount(e.lbl), Counter(mid, EdgeTypeCount(e.lbl)) + 1))
    ensures CreateEdgePost(t, edgeSet, t', edgeSet[e := props], e.src, e.dst, e.lbl, props, Ok(()))
  {
    hide AdjOk, EdgeRowsOk, TypeCountsOk, AdjKey, EdgeKey, SetAdj, FarEnds, SeqsUnique;
    var edges := edgeSet.Keys;
    assert edgeSet[e := props].Keys == edges + {e};
    assert e !in edges;
    NewRow(t.rows, edgeSet, e);
    RowsAfterInsert(t.rows, edgeSet, e, props);
    AdjAfterInsert(t.out, edges, e, true);
    AdjAfterInsert(t.in_, edges, e, false);
    CountAfterInsert(edges, e, e.num);
    EdgeCounterElsewhere(mid, e.lbl, Counter(mid, EdgeTypeCount(e.lbl)) + 1);
    TypeCountUpdate(mid, t'.meta, edges, edges + {e}, e.lbl);
  }

  lemma MetaOtherKept(before: Meta, after: Meta)
    requires after - {NextEdgeSeq} == before - {NextEdgeSeq}
    ensures NodeSide(after) == NodeSide(before)
    ensures forall edges :: TypeCountsOk(before, edges) ==> TypeCountsOk(after, edges)
  {
    forall k | k != NextEdgeSeq
      ensures k in after <==> k in before
      ensures k in after ==> after[k] == before[k]
    {
      assert k in after - {NextEdgeSeq} <==> k in before - {NextEdgeSeq};
      if k in after {
        assert (after - {NextEdgeSeq})[k] == (before - {NextEdgeSeq})[k];
      }
    }
    forall edges | TypeCountsOk(before, edges) ensures TypeCountsOk(after, edges) {
      forall lbl: Name ensures CounterIs(after, EdgeTypeCount(lbl), |OfType(edges, lbl)|) {
        assert CounterIs(before, EdgeTypeCount(lbl), |OfType(edges, lbl)|);
      }
    }
  }

  lemma WrongEntry(t: Table<Key>, key: Key, far: set<u64>, id: u64)
    requires id !in far && key in t && t[key] == IdList(SortedWords(far + {id}))
    ensures !AdjEntry(t, key, far)
  {
    IdListRoundTrip(SortedWords(far + {id}));
    IdListRoundTrip(SortedWords(far));
    assert id in far + {id};
    assert Elems(SortedWords(far + {id})) != Elems(SortedWords(far));
  }

  /** The tables left behind by a `create_edge` that found no sequence number. */
  lemma ExhaustedState(t: EdgeTables, t': EdgeTables, edgeSet: map<Edge, Props>, src: u64, dst: u64, lbl: Name,
                       props: Props)
    requires EdgesOk(t, edgeSet) && ValidName(lbl) && ValidKeys(props)
    requires NextSeq(t.meta) + 1 == U64_LIMIT
    requires t' == Linked(t, edgeSet.Keys, src, dst, lbl).(meta := t'.meta)
    requires t'.meta - {NextEdgeSeq} == t.meta - {NextEdgeSeq} && NextSeq(t'.meta) == NextSeq(t.meta)
    requires NextEdgeSeq in t'.meta && |t'.meta[NextEdgeSeq]| == 8
    ensures CreateEdgePost(t, edgeSet, t', edgeSet, src, dst, lbl, props, Err(SpaceExhausted))
  {
    hide EdgeRowsOk, TypeCountsOk, AdjKey, FarEnds, Parallel, AdjOk, SetAdj, ValidName, ValidKeys;
    var edges := edgeSet.Keys;
    FarEndsIffParallel(edges, src, dst, lbl);
    MetaOtherKept(t.meta, t'.meta);
    AddedFarEnd(t.out, edges, src, lbl, true, dst);
    AddedFarEnd(t.in_, edges, dst, lbl, false, src);
  }

  /** Entering a far end leaves an adjacency table right only if it was there before. */
  lemma AddedFarEnd(t: Table<Key>, edges: set<Edge>, id: u64, lbl: Name, out: bool, x: u64)
    requires AdjOk(t, edges, out)
    ensures AdjOk(SetAdj(t, AdjKey(id, lbl), FarEnds(edges, id, lbl, out) + {x}), edges, out) <==>
            x in FarEnds(edges, id, lbl, out)
  {
    hide AdjKey, FarEnds, IdList;
    var far := FarEnds(edges, id, lbl, out);
    var t' := SetAdj(t, AdjKey(id, lbl), far + {x});
    if x in far {
      assert far + {x} == far;
      AdjUpdate(t, edges, t', edges, id, lbl, out);
    } else {
      WrongEntry(t', AdjKey(id, lbl), far, x);
    }
  }

  /** The case: on an empty graph out of numbers, `create_edge` fails and leaves two adjacency entries. */
  lemma ExhaustedLeavesEntry(src: u64, dst: u64, lbl: Name)
    ensures var t := EdgeTables(map[], map[], map[], map[NextEdgeSeq := Word(U64_LIMIT - 1)]);
            NextSeq(t.meta) + 1 == U64_LIMIT && !EdgesOk(Linked(t, {}, src, dst, lbl), map[])
  {
    hide Word, FromWord;
    var t := EdgeTables(map[], map[], map[], map[NextEdgeSeq := Word(U64_LIMIT - 1)]);
    WordRoundTrip(U64_LIMIT - 1);
    forall id: u64, l: Name, out: bool ensures FarEnds({}, id, l, out) == {} {
    }
    AddedFarEnd(t.out, {}, src, lbl, true, dst);
  }

  // ---------------------------------------------------------------- scanning parallel edges

  ghost function ParallelKeys(edges: set<Edge>, src: u64, dst: u64, lbl: Name): seq<Key> {
    var nums := SortedWords(ParallelSeqs(edges, src, dst, lbl));
    seq(|nums|, i requires 0 <= i < |nums| => EdgeKey(Edge(src, dst, lbl, nums[i])))
  }

  lemma ParallelSeqsIff(edges: set<Edge>, src: u64, dst: u64, lbl: Name, n: u64)
    ensures n in ParallelSeqs(edges, src, dst, lbl) <==> Edge(src, dst, lbl, n) in edges
  {
    if Edge(src, dst, lbl, n) in edges {
      assert Edge(src, dst, lbl, n) in Parallel(edges, src, dst, lbl);
    }
  }

  /** The scan of an edge prefix returns the rows of the parallel edges, by sequence number. */
  lemma ScanParallel(t: Table<Props>, edges: map<Edge, Props>, src: u64, dst: u64, lbl: Name)
    requires EdgeRowsOk(t, edges) && NulFree(lbl)
    ensures SortedKeys(Extensions(t.Keys, EdgePrefix(src, dst, lbl))) == ParallelKeys(edges.Keys, src, dst, lbl)
  {
    var nums := SortedWords(ParallelSeqs(edges.Keys, src, dst, lbl));
    var keys, hits := ParallelKeys(edges.Keys, src, dst, lbl), Extensions(t.Keys, EdgePrefix(src, dst, lbl));
    forall i, j | 0 <= i < j < |keys| ensures Less(keys[i], keys[j]) {
      EdgeKeyOrder(src, dst, lbl, nums[i], nums[j]);
    }
    forall k | k in keys ensures k in hits {
      var i :| 0 <= i < |keys| && keys[i] == k;
      assert nums[i] in Elems(nums);
      ParallelSeqsIff(edges.Keys, src, dst, lbl, nums[i]);
      var e := Edge(src, dst, lbl, nums[i]);
      assert HasRow(t, e, edges[e]);
      EdgePrefixExact(src, dst, lbl, e);
    }
    forall k | k in hits ensures k in keys {
      HitIsParallel(t, edges, src, dst, lbl, k);
      var e := EdgeFromKey(k).value;
      ParallelSeqsIff(edges.Keys, src, dst, lbl, e.num);
      assert e.num in Elems(nums);
      var i :| 0 <= i < |nums| && nums[i] == e.num;
      assert keys[i] == k;
    }
    assert Elems(keys) == hits;
    KeysSortedUnique(keys, SortedKeys(hits));
  }

  lemma HitIsParallel(t: Table<Props>, edges: map<Edge, Props>, src: u64, dst: u64, lbl: Name, k: Key)
    requires EdgeRowsOk(t, edges) && NulFree(lbl)
    requires k in t && Extends(EdgePrefix(src, dst, lbl), k)
    ensures EdgeFromKey(k).Some?
    ensures var e := EdgeFromKey(k).value;
            e in edges && k == EdgeKey(e) && e.src == src && e.dst == dst && e.lbl == lbl
  {
    assert RowOf(k, edges.Keys);
    var e := EdgeFromKey(k).value;
    EdgePrefixExact(src, dst, lbl, e);
  }

  lemma ParallelCount(edges: set<Edge>, src: u64, dst: u64, lbl: Name)
    ensures |ParallelKeys(edges, src, dst, lbl)| == |Parallel(edges, src, dst, lbl)|
  {
    var nums := SortedWords(ParallelSeqs(edges, src, dst, lbl));
    var es := seq(|nums|, i requires 0 <= i < |nums| => Edge(src, dst, lbl, nums[i]));
    forall e | e in es ensures e in Parallel(edges, src, dst, lbl) {
      assert e.num in Elems(nums);
      ParallelSeqsIff(edges, src, dst, lbl, e.num);
    }
    forall e | e in Parallel(edges, src, dst, lbl) ensures e in es {
      assert e.num in Elems(nums);
      var i :| 0 <= i < |nums| && nums[i] == e.num;
      assert es[i] == e;
    }
    assert Elems(es) == Parallel(edges, src, dst, lbl);
    NoDupCardinality(es);
  }

  /** Every row a scan for (src, dst, lbl) meets is that of such an edge: the type has no NUL byte, or
      there is no row at all. */
  ghost predicate ScanClean(rows: set<Key>, src: u64, dst: u64, lbl: Name) {
    NulFree(lbl) || Extensions(rows, EdgePrefix(src, dst, lbl)) == {}
  }

  /** A prefix scan meets the rows of the parallel edges, all and only, exactly when it is clean. */
  lemma ScanParallelExact(t: Table<Props>, edges: map<Edge, Props>, src: u64, dst: u64, lbl: Name)
    requires EdgeRowsOk(t, edges)
    ensures SortedKeys(Extensions(t.Keys, EdgePrefix(src, dst, lbl))) == ParallelKeys(edges.Keys, src, dst, lbl) <==>
            ScanClean(t.Keys, src, dst, lbl)
    ensures !NulFree(lbl) ==> Parallel(edges.Keys, src, dst, lbl) == {}
  {
    hide EdgeRowsOk, EdgePrefix, SortedKeys;
    if NulFree(lbl) {
      ScanParallel(t, edges, src, dst, lbl);
    } else {
      LabelsValid(t, edges);
      NoSuchType(edges.Keys, src, dst, lbl);
      NoKeysListed(Extensions(t.Keys, EdgePrefix(src, dst, lbl)));
    }
  }

  lemma NoKeysListed(keys: set<Key>)
    ensures SortedKeys(keys) == [] <==> keys == {}
  {
    hide SortedKeys;
    KeysSortedNoDup(SortedKeys(keys));
    NoDupCardinality(SortedKeys(keys));
  }

  lemma NoSuchType(edges: set<Edge>, src: u64, dst: u64, lbl: Name)
    requires !NulFree(lbl) && forall e :: e in edges ==> ValidName(e.lbl)
    ensures Parallel(edges, src, dst, lbl) == {} && ParallelKeys(edges, src, dst, lbl) == []
    ensures forall id: u64, out: bool :: FarEnds(edges, id, lbl, out) == {}
  {
    assert ParallelSeqs(edges, src, dst, lbl) == {};
    assert Elems<u64>([]) == {};
    SortedWordsIs([], {});
  }

  /** `get_all_edge_props`: every parallel edge with its properties, by sequence number, exactly when
      the scan is clean. */
  method GetAllEdgeProps(conn: Connection, src: u64, dst: u64, lbl: Name) returns (r: seq<(u64, Props)>)
    requires conn.EdgesValid()
    ensures r == EdgePropsOf(conn.edgeSet, src, dst, lbl) <==> ScanClean(conn.edgeProps.Keys, src, dst, lbl)
  {
    hide AdjOk, TypeCountsOk, NumbersOk, EdgeRowsOk, EdgeKey, EdgeSeqFromKey, EdgePropsOf, SortedKeys, NulFree,
         ScanClean;
    var prefix := EdgePrefix(src, dst, lbl);
    var entries := ScanPrefix(conn.edgeProps, prefix);
    ScanParallelExact(conn.edgeProps, conn.edgeSet, src, dst, lbl);
    EdgePropsCount(conn.edgeSet, src, dst, lbl);
    ghost var clean := ScanClean(conn.edgeProps.Keys, src, dst, lbl);
    r := [];
    for i := 0 to |entries|
      invariant |r| == i
      invariant clean ==> r == EdgePropsOf(conn.edgeSet, src, dst, lbl)[..i]
    {
      r := r + [(EdgeSeqFromKey(entries[i].0, |prefix|), entries[i].1)];
      if clean {
        EdgePropsAt(conn.edgeProps, conn.edgeSet, src, dst, lbl, i);
        TakeOneMore(EdgePropsOf(conn.edgeSet, src, dst, lbl), i, r[i]);
      }
    }
    if clean {
      assert r == EdgePropsOf(conn.edgeSet, src, dst, lbl);
    } else {
      UncleanScan(conn.edgeProps, conn.edgeSet, src, dst, lbl);
    }
  }

  lemma UncleanScan(t: Table<Props>, edges: map<Edge, Props>, src: u64, dst: u64, lbl: Name)
    requires EdgeRowsOk(t, edges) && !ScanClean(t.Keys, src, dst, lbl)
    ensures ParallelKeys(edges.Keys, src, dst, lbl) == []
    ensures SortedKeys(Extensions(t.Keys, EdgePrefix(src, dst, lbl))) != []
  {
    hide EdgeRowsOk, EdgePrefix;
    LabelsValid(t, edges);
    NoSuchType(edges.Keys, src, dst, lbl);
    NoKeysListed(Extensions(t.Keys, EdgePrefix(src, dst, lbl)));
  }

  lemma EdgePropsCount(edges: map<Edge, Props>, src: u64, dst: u64, lbl: Name)
    ensures |EdgePropsOf(edges, src, dst, lbl)| == |ParallelKeys(edges.Keys, src, dst, lbl)|
  {
  }

  /** A scanned row holds the sequence number and the properties of its edge. */
  lemma EdgePropsAt(t: Table<Props>, edges: map<Edge, Props>, src: u64, dst: u64, lbl: Name, i: nat)
    requires EdgeRowsOk(t, edges) && i < |ParallelKeys(edges.Keys, src, dst, lbl)|
    ensures var key := ParallelKeys(edges.Keys, src, dst, lbl)[i];
            && key in t && |EdgePrefix(src, dst, lbl)| <= |key|
            && i < |EdgePropsOf(edges, src, dst, lbl)|
            && EdgePropsOf(edges, src, dst, lbl)[i] == (EdgeSeqFromKey(key, |EdgePrefix(src, dst, lbl)|), t[key])
  {
    hide EdgeKey, EdgeSeqFromKey;
    var nums := SortedWords(ParallelSeqs(edges.Keys, src, dst, lbl));
    var e := Edge(src, dst, lbl, nums[i]);
    assert nums[i] in Elems(nums);
    ParallelSeqsIff(edges.Keys, src, dst, lbl, nums[i]);
    assert HasRow(t, e, edges[e]) && ValidName(e.lbl);
    EdgeKeyRoundTrip(e);
    KeyExtends(e);
  }

  lemma KeyExtends(e: Edge)
    ensures |EdgePrefix(e.src, e.dst, e.lbl)| <= |EdgeKey(e)|
  {
  }

  ghost function EdgePropsOf(edges: map<Edge, Props>, src: u64, dst: u64, lbl: Name): seq<(u64, Props)> {
    var nums := SortedWords(ParallelSeqs(edges.Keys, src, dst, lbl));
    seq(|nums|, i requires 0 <= i < |nums| =>
      (nums[i],
       (ParallelSeqsIff(edges.Keys, src, dst, lbl, nums[i]);
        assert nums[i] in Elems(nums);
        edges[Edge(src, dst, lbl, nums[i])])))
  }

  // ---------------------------------------------------------------- delete

  /** The edge tables with (src, dst, lbl) taken out of both adjacency tables. */
  ghost function Unlinked(t: EdgeTables, edges: set<Edge>, src: u64, dst: u64, lbl: Name): EdgeTables {
    t.(out := SetAdj(t.out, AdjKey(src, lbl), FarEnds(edges, src, lbl, true) - {dst}),
       in_ := SetAdj(t.in_, AdjKey(dst, lbl), FarEnds(edges, dst, lbl, false) - {src}))
  }

  method UnlinkEndpoints(conn: Connection, src: u64, dst: u64, lbl: Name, ghost edges: set<Edge>)
    requires AdjOk(conn.adjOut, edges, true) && AdjOk(conn.adjIn, edges, false)
    modifies conn`adjOut, conn`adjIn
    ensures conn.EdgeState() == Unlinked(old(conn.EdgeState()), edges, src, dst, lbl)
  {
    hide AdjKey, FarEnds, SetAdj, AdjEntry;
    assert AdjEntry(conn.adjOut, AdjKey(src, lbl), FarEnds(edges, src, lbl, true));
    assert AdjEntry(conn.adjIn, AdjKey(dst, lbl), FarEnds(edges, dst, lbl, false));
    conn.adjOut := RemoveFromAdjacency(conn.adjOut, AdjKey(src, lbl), dst, FarEnds(edges, src, lbl, true));
    conn.adjIn := RemoveFromAdjacency(conn.adjIn, AdjKey(dst, lbl), src, FarEnds(edges, dst, lbl, false));
  }

  /** Both adjacency tables after all parallel edges of a group went away. */
  lemma AdjAfterUnlink(t: EdgeTables, edges: set<Edge>, src: u64, dst: u64, lbl: Name)
    requires AdjOk(t.out, edges, true) && AdjOk(t.in_, edges, false)
    ensures var t', edges' := Unlinked(t, edges, src, dst, lbl), edges - Parallel(edges, src, dst, lbl);
            AdjOk(t'.out, edges', true) && AdjOk(t'.in_, edges', false)
  {
    hide FarEnds, AdjKey, Parallel, SetAdj, AdjOk;
    var t', edges' := Unlinked(t, edges, src, dst, lbl), edges - Parallel(edges, src, dst, lbl);
    forall i: u64, l: Name
      ensures i != src || l != lbl ==> FarEnds(edges', i, l, true) == FarEnds(edges, i, l, true)
      ensures i != dst || l != lbl ==> FarEnds(edges', i, l, false) == FarEnds(edges, i, l, false)
    {
      RemoveGroupEffect(edges, src, dst, lbl, i, l, true);
      RemoveGroupEffect(edges, src, dst, lbl, i, l, false);
    }
    RemoveGroupEffect(edges, src, dst, lbl, src, lbl, true);
    RemoveGroupEffect(edges, src, dst, lbl, dst, lbl, false);
    AdjUpdate(t.out, edges, t'.out, edges', src, lbl, true);
    AdjUpdate(t.in_, edges, t'.in_, edges', dst, lbl, false);
  }

  lemma RowsAfterRemove(t: Table<Props>, edges: map<Edge, Props>, gone: set<Edge>, keys: set<Key>)
    requires EdgeRowsOk(t, edges) && gone <= edges.Keys
    requires forall e :: e in edges ==> (EdgeKey(e) in keys <==> e in gone)
    ensures EdgeRowsOk(t - keys, edges - gone)
  {
    forall e | e in edges - gone ensures HasRow(t - keys, e, (edges - gone)[e]) {
      assert HasRow(t, e, edges[e]);
    }
    forall k | k in t - keys ensures RowOf(k, (edges - gone).Keys) {
      assert RowOf(k, edges.Keys);
    }
  }

  lemma NumbersAfterRemove(before: Meta, after: Meta, edges: set<Edge>, edges': set<Edge>)
    requires NumbersOk(before, edges) && edges' <= edges
    requires (NextEdgeSeq in after) == (NextEdgeSeq in before)
    requires NextEdgeSeq in before ==> after[NextEdgeSeq] == before[NextEdgeSeq]
    ensures NumbersOk(after, edges')
  {
  }

  /** Decrementing by the number of edges removed never saturates and keeps every type's counter. */
  lemma TypeCountsAfterRemove(before: Meta, edges: set<Edge>, gone: set<Edge>, lbl: Name)
    requires TypeCountsOk(before, edges) && gone <= OfType(edges, lbl)
    ensures |gone| <= Counter(before, EdgeTypeCount(lbl))
    ensures TypeCountsOk(SetCounter(before, EdgeTypeCount(lbl), Counter(before, EdgeTypeCount(lbl)) - |gone|),
                         edges - gone)
  {
    var n := |OfType(edges, lbl)|;
    assert CounterIs(before, EdgeTypeCount(lbl), n);
    CounterOfIs(before, EdgeTypeCount(lbl), n);
    SubsetCardinality(gone, OfType(edges, lbl));
    assert OfType(edges - gone, lbl) == OfType(edges, lbl) - gone;
    forall l: Name | l != lbl ensures OfType(edges - gone, l) == OfType(edges, l) {
    }
    TypeCountUpdate(before, SetCounter(before, EdgeTypeCount(lbl), n - |gone|), edges, edges - gone, lbl);
  }

  /** What `delete_edge` and `delete_single_edge` do: exactly the edges of `gone` leave the graph. */
  ghost predicate DeletePost(t: EdgeTables, edges: map<Edge, Props>, t': EdgeTables, edges': map<Edge, Props>,
                             gone: set<Edge>)
  {
    edges' == edges - gone && EdgesOk(t', edges') && NextSeq(t'.meta) == NextSeq(t.meta)
  }

  method DeleteRows(conn: Connection, entries: seq<(Key, Props)>)
    modifies conn`edgeProps
    ensures conn.edgeProps == old(conn.edgeProps) - (set i | 0 <= i < |entries| :: entries[i].0)
  {
    for i := 0 to |entries|
      invariant conn.edgeProps == old(conn.edgeProps) - (set j | 0 <= j < i :: entries[j].0)
    {
      conn.edgeProps := conn.edgeProps - {entries[i].0};
    }
  }

  /** `delete_edge`: removes all parallel edges of (src, dst, lbl), and only those, exactly when the
      scan is clean. */
  method DeleteEdge(conn: Connection, src: u64, dst: u64, lbl: Name)
    requires conn.EdgesValid()
    modifies conn`adjOut, conn`adjIn, conn`edgeProps, conn`meta, conn`edgeSet
    ensures DeletePost(old(conn.EdgeState()), old(conn.edgeSet), conn.EdgeState(), conn.edgeSet,
                       Parallel(old(conn.edgeSet.Keys), src, dst, lbl)) <==>
            ScanClean(old(conn.edgeProps.Keys), src, dst, lbl)
    ensures conn.edgeSet == old(conn.edgeSet) - Parallel(old(conn.edgeSet.Keys), src, dst, lbl)
    ensures NodeSide(conn.meta) == NodeSide(old(conn.meta)) && NextSeq(conn.meta) == NextSeq(old(conn.meta))
  {
    hide EdgeRowsOk, NumbersOk, AdjOk, TypeCountsOk, EdgeKey, SetCounter, Counter, Unlinked, ParallelKeys,
         SortedKeys, EdgePrefix, Parallel, NodeSide, DeletePost, SaturatingSub, ScanClean, NulFree;
    ghost var before, edges := conn.EdgeState(), conn.edgeSet;
    ghost var gone := Parallel(edges.Keys, src, dst, lbl);
    UnlinkEndpoints(conn, src, dst, lbl, edges.Keys);
    var entries := ScanPrefix(conn.edgeProps, EdgePrefix(src, dst, lbl));
    ScanParallelExact(before.rows, edges, src, dst, lbl);
    ParallelCount(edges.Keys, src, dst, lbl);
    DeleteRows(conn, entries);
    ParallelBounds(before, edges, src, dst, lbl);
    ghost var keys := set i | 0 <= i < |entries| :: entries[i].0;
    RowsCounted(before, edges, Extensions(before.rows.Keys, EdgePrefix(src, dst, lbl)));
    var removed: u64 := |entries|;
    if removed > 0 {
      DecrementCountBy(conn, EdgeTypeCount(lbl), removed);
    }
    conn.edgeSet := conn.edgeSet - gone;
    EdgeCounterElsewhere(before.meta, lbl, SaturatingSub(Counter(before.meta, EdgeTypeCount(lbl)), removed));
    if ScanClean(before.rows.Keys, src, dst, lbl) {
      DeletedState(before, conn.EdgeState(), edges, src, dst, lbl, keys, removed);
    } else {
      StrayRowsDeleted(before, conn.EdgeState(), edges, src, dst, lbl, keys);
    }
  }

  /** There are no more edge rows than edge numbers. */
  lemma RowsCounted(t: EdgeTables, edges: map<Edge, Props>, hits: set<Key>)
    requires EdgesOk(t, edges) && hits <= t.rows.Keys
    ensures |hits| < U64_LIMIT && |SortedKeys(hits)| == |hits|
  {
    hide AdjOk, TypeCountsOk, EdgeKey, SortedKeys;
    EdgeCountBound(edges.Keys, NextSeq(t.meta));
    forall k | k in hits ensures exists e :: e in edges && EdgeKey(e) == k {
      assert RowOf(k, edges.Keys);
      assert EdgeKey(EdgeFromKey(k).value) == k;
    }
    KeysOfEdges(edges.Keys, hits);
    assert |edges.Keys| == |edges|;
    KeysSortedNoDup(SortedKeys(hits));
    NoDupCardinality(SortedKeys(hits));
  }

  lemma {:induction false} KeysOfEdges(edges: set<Edge>, keys: set<Key>)
    requires forall k :: k in keys ==> exists e :: e in edges && EdgeKey(e) == k
    ensures |keys| <= |edges|
    decreases |edges|
  {
    hide EdgeKey;
    if edges == {} {
      assert keys == {};
    } else {
      var e :| e in edges;
      KeysOfEdges(edges - {e}, keys - {EdgeKey(e)});
    }
  }

  /** Rows of another type deleted: their edges are left without rows. */
  lemma StrayRowsDeleted(t: EdgeTables, t': EdgeTables, edges: map<Edge, Props>, src: u64, dst: u64, lbl: Name,
                         keys: set<Key>)
    requires EdgesOk(t, edges) && !ScanClean(t.rows.Keys, src, dst, lbl)
    requires keys == Extensions(t.rows.Keys, EdgePrefix(src, dst, lbl)) && t'.rows == t.rows - keys
    ensures !DeletePost(t, edges, t', edges - Parallel(edges.Keys, src, dst, lbl), Parallel(edges.Keys, src, dst, lbl))
  {
    hide AdjOk, TypeCountsOk, NumbersOk, EdgeRowsOk, EdgePrefix, FarEnds, NextSeq, Parallel;
    LabelsValid(t.rows, edges);
    NoSuchType(edges.Keys, src, dst, lbl);
    var k :| k in keys;
    assert edges - {} == edges;
    RowGone(t.rows, t'.rows, edges, k);
  }

  lemma RowGone(t: Table<Props>, t': Table<Props>, edges: map<Edge, Props>, k: Key)
    requires EdgeRowsOk(t, edges) && k in t && k !in t'
    ensures !EdgeRowsOk(t', edges)
  {
    hide EdgeKey, EdgeFromKey;
    assert RowOf(k, edges.Keys);
    var e := EdgeFromKey(k).value;
    assert !HasRow(t', e, edges[e]);
  }

  lemma ParallelBounds(t: EdgeTables, edges: map<Edge, Props>, src: u64, dst: u64, lbl: Name)
    requires EdgesOk(t, edges)
    ensures |Parallel(edges.Keys, src, dst, lbl)| <= Counter(t.meta, EdgeTypeCount(lbl))
  {
    hide EdgeRowsOk, AdjOk;
    CountFits(t.meta, edges.Keys, lbl, NextSeq(t.meta));
    SubsetCardinality(Parallel(edges.Keys, src, dst, lbl), OfType(edges.Keys, lbl));
  }

  lemma DeletedState(t: EdgeTables, t': EdgeTables, edges: map<Edge, Props>, src: u64, dst: u64, lbl: Name,
                     keys: set<Key>, removed: u64)
    requires EdgesOk(t, edges)
    requires keys == Elems(ParallelKeys(edges.Keys, src, dst, lbl))
    requires removed == |Parallel(edges.Keys, src, dst, lbl)| <= Counter(t.meta, EdgeTypeCount(lbl))
    requires var u := Unlinked(t, edges.Keys, src, dst, lbl);
             t' == EdgeTables(u.out, u.in_, t.rows - keys, MetaAfterRemove(t.meta, lbl, removed))
    ensures DeletePost(t, edges, t', edges - Parallel(edges.Keys, src, dst, lbl), Parallel(edges.Keys, src, dst, lbl))
    ensures NodeSide(t'.meta) == NodeSide(t.meta)
  {
    hide AdjOk, SetAdj, AdjKey, EdgeKey, EdgeRowsOk, MetaAfterRemove, NextSeq, TypeCountsOk, NumbersOk, ParallelKeys,
         NodeSide;
    var gone := Parallel(edges.Keys, src, dst, lbl);
    assert (edges - gone).Keys == edges.Keys - gone;
    AdjAfterUnlink(t, edges.Keys, src, dst, lbl);
    LabelsValid(t.rows, edges);
    ParallelKeysExact(edges.Keys, src, dst, lbl);
    RowsAfterRemove(t.rows, edges, gone, keys);
    MetaAfterRemoveOk(t.meta, edges.Keys, gone, lbl, removed);
  }

  lemma LabelsValid(t: Table<Props>, edges: map<Edge, Props>)
    requires EdgeRowsOk(t, edges)
    ensures forall e :: e in edges ==> ValidName(e.lbl)
  {
  }

  /** The metadata after `removed` edges of a type were counted off; untouched if there were none. */
  ghost function MetaAfterRemove(meta: Meta, lbl: Name, removed: u64): Meta {
    if removed > 0
    then SetCounter(meta, EdgeTypeCount(lbl), SaturatingSub(Counter(meta, EdgeTypeCount(lbl)), removed))
    else meta
  }

  lemma MetaAfterRemoveOk(meta: Meta, edges: set<Edge>, gone: set<Edge>, lbl: Name, removed: u64)
    requires TypeCountsOk(meta, edges) && NumbersOk(meta, edges)
    requires gone <= OfType(edges, lbl) && removed == |gone|
    ensures var after := MetaAfterRemove(meta, lbl, removed);
            TypeCountsOk(after, edges - gone) && NumbersOk(after, edges - gone) && NextSeq(after) == NextSeq(meta) &&
            NodeSide(after) == NodeSide(meta)
  {
    hide Counter, OfType, NodeSide, TypeCountsOk;
    if removed > 0 {
      EdgeCounterElsewhere(meta, lbl, SaturatingSub(Counter(meta, EdgeTypeCount(lbl)), removed));
      TypeCountsAfterRemove(meta, edges, gone, lbl);
    } else {
      assert edges - gone == edges;
    }
    NumbersAfterRemove(meta, MetaAfterRemove(meta, lbl, removed), edges, edges - gone);
  }

  lemma ParallelKeysExact(edges: set<Edge>, src: u64, dst: u64, lbl: Name)
    ensures forall e :: e in edges ==>
              (EdgeKey(e) in Elems(ParallelKeys(edges, src, dst, lbl)) <==> e in Parallel(edges, src, dst, lbl))
  {
    hide EdgeKey;
    var nums, keys := SortedWords(ParallelSeqs(edges, src, dst, lbl)), ParallelKeys(edges, src, dst, lbl);
    forall e | e in edges ensures EdgeKey(e) in Elems(keys) <==> e in Parallel(edges, src, dst, lbl) {
      if e in Parallel(edges, src, dst, lbl) {
        assert e.num in Elems(nums);
        var i :| 0 <= i < |nums| && nums[i] == e.num;
        assert keys[i] == EdgeKey(e);
      }
      if EdgeKey(e) in Elems(keys) {
        var i :| 0 <= i < |keys| && keys[i] == EdgeKey(e);
        EdgeKeyInjective(e, Edge(src, dst, lbl, nums[i]));
        assert nums[i] in Elems(nums);
        ParallelSeqsIff(edges, src, dst, lbl, nums[i]);
      }
    }
  }

  /** `delete_single_edge`: removes one parallel edge, and the adjacency entries with the last one.
      Deleting an edge that is gone already changes nothing. */
  method DeleteSingleEdge(conn: Connection, src: u64, dst: u64, lbl: Name, num: u64)
    requires conn.EdgesValid()
    modifies conn`adjOut, conn`adjIn, conn`edgeProps, conn`meta, conn`edgeSet
    ensures DeletePost(old(conn.EdgeState()), old(conn.edgeSet), conn.EdgeState(), conn.edgeSet,
                       {Edge(src, dst, lbl, num)})
    ensures NodeSide(conn.meta) == NodeSide(old(conn.meta))
  {
    hide EdgesOk, EdgeRowsOk, NumbersOk, AdjOk, TypeCountsOk, EdgeKey, SetCounter, Counter, Unlinked, ParallelKeys,
         EdgePrefix, Parallel, NodeSide, DeletePost, SaturatingSub, MetaAfterRemove;
    ghost var before, edges := conn.EdgeState(), conn.edgeSet;
    var e := Edge(src, dst, lbl, num);
    RowIff(before, edges, e);
    var removed := EdgeKey(e) in conn.edgeProps;
    conn.edgeProps := conn.edgeProps - {EdgeKey(e)};
    if removed {
      DecrementCountBy(conn, EdgeTypeCount(lbl), 1);
    }
    conn.edgeSet := conn.edgeSet - {e};
    ghost var mid := conn.EdgeState();
    RowRemoved(before, mid, edges, e);
    var remaining := ScanPrefix(conn.edgeProps, EdgePrefix(src, dst, lbl));
    RemainingRows(mid.rows, conn.edgeSet, src, dst, lbl);
    if remaining == [] {
      UnlinkEndpoints(conn, src, dst, lbl, edges.Keys);
      LastRemoved(before, mid, edges, e);
    } else if NulFree(lbl) {
      OneOfSeveralRemoved(before, mid, edges, e);
    } else {
      NothingRemoved(before, mid, edges, e);
    }
  }

  lemma RemainingRows(t: Table<Props>, edges: map<Edge, Props>, src: u64, dst: u64, lbl: Name)
    requires EdgeRowsOk(t, edges)
    ensures var rows := SortedKeys(Extensions(t.Keys, EdgePrefix(src, dst, lbl)));
            (rows == [] ==> Parallel(edges.Keys, src, dst, lbl) == {}) &&
            (rows != [] && NulFree(lbl) ==> Parallel(edges.Keys, src, dst, lbl) != {})
  {
    hide EdgeRowsOk, EdgePrefix, Parallel, ParallelKeys, SortedKeys, NulFree;
    ScanParallelExact(t, edges, src, dst, lbl);
    ParallelCount(edges.Keys, src, dst, lbl);
  }

  lemma NothingRemoved(t: EdgeTables, mid: EdgeTables, edges: map<Edge, Props>, e: Edge)
    requires EdgesOk(t, edges) && !NulFree(e.lbl) && EdgeRowsOk(mid.rows, edges - {e})
    requires mid.out == t.out && mid.in_ == t.in_
    requires TypeCountsOk(mid.meta, edges.Keys - {e}) && NumbersOk(mid.meta, edges.Keys - {e})
    requires NextSeq(mid.meta) == NextSeq(t.meta)
    ensures DeletePost(t, edges, mid, edges - {e}, {e})
  {
    hide AdjOk, TypeCountsOk, NumbersOk;
    LabelsValid(t.rows, edges);
    assert e !in edges;
    assert edges - {e} == edges && edges.Keys - {e} == edges.Keys;
  }

  lemma RowIff(t: EdgeTables, edges: map<Edge, Props>, e: Edge)
    requires EdgesOk(t, edges)
    ensures EdgeKey(e) in t.rows <==> e in edges
    ensures AdjOk(t.out, edges.Keys, true) && AdjOk(t.in_, edges.Keys, false)
  {
    hide EdgeKey;
    if EdgeKey(e) in t.rows {
      assert RowOf(EdgeKey(e), edges.Keys);
      EdgeKeyInjective(e, EdgeFromKey(EdgeKey(e)).value);
    }
    if e in edges {
      assert HasRow(t.rows, e, edges[e]);
    }
  }

  /** Rows and metadata once the row of `e` is deleted and, if there was one, counted off. */
  lemma RowRemoved(t: EdgeTables, mid: EdgeTables, edges: map<Edge, Props>, e: Edge)
    requires EdgesOk(t, edges)
    requires mid == t.(rows := t.rows - {EdgeKey(e)}, meta := mid.meta)
    requires mid.meta == if e in edges
                         then SetCounter(t.meta, EdgeTypeCount(e.lbl),
                             SaturatingSub(Counter(t.meta, EdgeTypeCount(e.lbl)), 1))
                         else t.meta
    ensures EdgeRowsOk(mid.rows, edges - {e})
    ensures TypeCountsOk(mid.meta, edges.Keys - {e}) && NumbersOk(mid.meta, edges.Keys - {e})
    ensures NextSeq(mid.meta) == NextSeq(t.meta) && NodeSide(mid.meta) == NodeSide(t.meta)
  {
    hide TypeCountsOk, NumbersOk, NodeSide, Counter, EdgeKey, AdjOk, NextSeq, SetCounter, EdgeRowsOk;
    RowIff(t, edges, e);
    LabelsValid(t.rows, edges);
    forall f | f in edges ensures EdgeKey(f) == EdgeKey(e) ==> f == e {
      EdgeKeyInjective(f, e);
    }
    var gone := if e in edges then {e} else {};
    RowsAfterRemove(t.rows, edges, gone, {EdgeKey(e)});
    assert edges - gone == edges - {e} && edges.Keys - gone == edges.Keys - {e};
    MetaAfterRemoveOk(t.meta, edges.Keys, gone, e.lbl, |gone|);
  }

  lemma LastRemoved(t: EdgeTables, mid: EdgeTables, edges: map<Edge, Props>, e: Edge)
    requires EdgesOk(t, edges) && EdgeRowsOk(mid.rows, edges - {e})
    requires mid.out == t.out && mid.in_ == t.in_
    requires TypeCountsOk(mid.meta, edges.Keys - {e}) && NumbersOk(mid.meta, edges.Keys - {e})
    requires NextSeq(mid.meta) == NextSeq(t.meta)
    requires Parallel((edges - {e}).Keys, e.src, e.dst, e.lbl) == {}
    ensures DeletePost(t, edges, Unlinked(mid, edges.Keys, e.src, e.dst, e.lbl), edges - {e}, {e})
  {
    hide AdjOk, EdgeRowsOk, TypeCountsOk, NumbersOk, SetAdj, AdjKey;
    assert (edges - {e}).Keys == edges.Keys - {e};
    AdjAfterUnlink(mid, edges.Keys, e.src, e.dst, e.lbl);
    assert edges.Keys - Parallel(edges.Keys, e.src, e.dst, e.lbl) == edges.Keys - {e} by {
      forall f | f in Parallel(edges.Keys, e.src, e.dst, e.lbl) ensures f == e {
        assert f != e ==> f in Parallel((edges - {e}).Keys, e.src, e.dst, e.lbl);
      }
    }
  }

  lemma OneOfSeveralRemoved(t: EdgeTables, mid: EdgeTables, edges: map<Edge, Props>, e: Edge)
    requires EdgesOk(t, edges) && EdgeRowsOk(mid.rows, edges - {e})
    requires mid.out == t.out && mid.in_ == t.in_
    requires TypeCountsOk(mid.meta, edges.Keys - {e}) && NumbersOk(mid.meta, edges.Keys - {e})
    requires NextSeq(mid.meta) == NextSeq(t.meta)
    requires Parallel((edges - {e}).Keys, e.src, e.dst, e.lbl) != {}
    ensures DeletePost(t, edges, mid, edges - {e}, {e})
  {
    hide EdgeRowsOk, TypeCountsOk, NumbersOk, SetAdj, AdjKey, AdjEntry, FarEnds;
    assert (edges - {e}).Keys == edges.Keys - {e};
    forall i: u64, l: Name, out: bool
      ensures FarEnds(edges.Keys - {e}, i, l, out) == FarEnds(edges.Keys, i, l, out)
    {
      RemoveOneEffect(edges.Keys, e, i, l, out);
    }
  }

  // ---------------------------------------------------------------- property writes

  /** Writes the row of an edge whether or not the edge exists, so it keeps the tables and the graph
      together exactly when the edge is there. */
  method PutEdgeRow(conn: Connection, e: Edge, props: Props)
    requires conn.EdgesValid()
    modifies conn`edgeProps, conn`edgeSet
    ensures conn.EdgesValid() <==> e in old(conn.edgeSet)
    ensures conn.edgeSet == if e in old(conn.edgeSet) then old(conn.edgeSet)[e := props] else old(conn.edgeSet)
  {
    hide AdjOk, TypeCountsOk, NumbersOk, EdgeRowsOk, EdgeKey;
    if e in conn.edgeSet {
      RowProps(conn.edgeProps, conn.edgeSet, e);
      RowsAfterInsert(conn.edgeProps, conn.edgeSet, e, props);
      assert conn.edgeSet[e := props].Keys == conn.edgeSet.Keys;
      conn.edgeSet := conn.edgeSet[e := props];
    } else {
      PhantomRow(conn.edgeProps[EdgeKey(e) := props], conn.edgeSet, e);
    }
    conn.edgeProps := conn.edgeProps[EdgeKey(e) := props];
  }

  /** `set_edge_property_at`: one property of one edge changes, a Null removing it. */
  method SetEdgePropertyAt(conn: Connection, src: u64, dst: u64, lbl: Name, num: u64, key: Name, value: Value)
    requires conn.EdgesValid()
    modifies conn`edgeProps, conn`edgeSet
    ensures var e := Edge(src, dst, lbl, num);
            (conn.EdgesValid() <==> e in old(conn.edgeSet)) &&
            conn.edgeSet == if e in old(conn.edgeSet)
                            then old(conn.edgeSet)[e := WithProperty(old(conn.edgeSet)[e], key, value)]
                            else old(conn.edgeSet)
  {
    hide EdgesOk, EdgeKey;
    var e := Edge(src, dst, lbl, num);
    RowIff(conn.EdgeState(), conn.edgeSet, e);
    var props := if EdgeKey(e) in conn.edgeProps then conn.edgeProps[EdgeKey(e)] else map[];
    if e in conn.edgeSet {
      StoredProps(conn.EdgeState(), conn.edgeSet, e);
    }
    PutEdgeRow(conn, e, WithProperty(props, key, value));
  }

  /** `set_all_edge_properties_at`: all properties of one edge are replaced. */
  method SetAllEdgePropertiesAt(conn: Connection, src: u64, dst: u64, lbl: Name, num: u64, props: Props)
    requires conn.EdgesValid()
    modifies conn`edgeProps, conn`edgeSet
    ensures var e := Edge(src, dst, lbl, num);
            (conn.EdgesValid() <==> e in old(conn.edgeSet)) &&
            conn.edgeSet == if e in old(conn.edgeSet) then old(conn.edgeSet)[e := props] else old(conn.edgeSet)
  {
    hide EdgesOk;
    PutEdgeRow(conn, Edge(src, dst, lbl, num), props);
  }

  lemma StoredProps(t: EdgeTables, edges: map<Edge, Props>, e: Edge)
    requires EdgesOk(t, edges) && e in edges
    ensures EdgeKey(e) in t.rows && t.rows[EdgeKey(e)] == edges[e]
  {
    hide EdgeKey;
    RowProps(t.rows, edges, e);
  }

  function WithProperty(props: Props, key: Name, value: Value): Props {
    if value == Null then props - {key} else props[key := value]
  }

  lemma RowProps(t: Table<Props>, edges: map<Edge, Props>, e: Edge)
    requires EdgeRowsOk(t, edges) && e in edges
    ensures HasRow(t, e, edges[e]) && ValidName(e.lbl)
  {
  }

  lemma PhantomRow(t: Table<Props>, edges: map<Edge, Props>, e: Edge)
    requires EdgeKey(e) in t && e !in edges
    ensures !EdgeRowsOk(t, edges)
  {
    hide EdgeKey;
    if RowOf(EdgeKey(e), edges.Keys) {
      EdgeKeyInjective(e, EdgeFromKey(EdgeKey(e)).value);
    }
  }

  /** The case: a property set on an edge of the empty graph leaves a row without an edge. */
  lemma PhantomRowCase(e: Edge, props: Props)
    ensures EdgeRowsOk(map[], map[]) && !EdgeRowsOk(map[EdgeKey(e) := props], map[])
  {
    PhantomRow(map[EdgeKey(e) := props], map[], e);
  }

  // ---------------------------------------------------------------- neighbours

  /** The neighbours of a node in the order `get_neighbors` lists them. */
  ghost function NeighborList(edges: set<Edge>, id: u64, lbl: Name, direction: Direction): seq<u64> {
    var outs, ins := FarEnds(edges, id, lbl, true), FarEnds(edges, id, lbl, false);
    match direction
    case Outgoing => SortedWords(outs)
    case Incoming => SortedWords(ins)
    case Both => SortedWords(outs) + Excluding(SortedWords(ins), outs)
  }

  /** The neighbours of a node as a set. */
  function Neighborhood(edges: set<Edge>, id: u64, lbl: Name, direction: Direction): set<u64> {
    match direction
    case Outgoing => FarEnds(edges, id, lbl, true)
    case Incoming => FarEnds(edges, id, lbl, false)
    case Both => FarEnds(edges, id, lbl, true) + FarEnds(edges, id, lbl, false)
  }

  /** `get_neighbors` lists every neighbour once, in both directions too. */
  lemma NeighborListSpec(edges: set<Edge>, id: u64, lbl: Name, direction: Direction)
    ensures NoDup(NeighborList(edges, id, lbl, direction))
    ensures Elems(NeighborList(edges, id, lbl, direction)) == Neighborhood(edges, id, lbl, direction)
  {
    var outs, ins := FarEnds(edges, id, lbl, true), FarEnds(edges, id, lbl, false);
    SortedNoDup(SortedWords(outs));
    SortedNoDup(SortedWords(ins));
    ExcludingSpec(SortedWords(ins), outs);
    ElemsConcat(SortedWords(outs), Excluding(SortedWords(ins), outs));
    NoDupConcat(SortedWords(outs), Excluding(SortedWords(ins), outs));
  }

  /** `get_neighbors`. */
  method GetNeighbors(conn: Connection, id: u64, lbl: Name, direction: Direction) returns (result: seq<u64>)
    requires conn.EdgesValid()
    ensures result == NeighborList(conn.edgeSet.Keys, id, lbl, direction)
  {
    hide EdgeRowsOk, TypeCountsOk, NumbersOk, AdjKey, FarEnds, AdjEntry;
    ghost var edges := conn.edgeSet.Keys;
    ghost var outs, ins := FarEnds(edges, id, lbl, true), FarEnds(edges, id, lbl, false);
    assert AdjEntry(conn.adjOut, AdjKey(id, lbl), outs) && AdjEntry(conn.adjIn, AdjKey(id, lbl), ins);
    result := [];
    if direction != Incoming {
      result := ReadAdjacency(conn.adjOut, AdjKey(id, lbl), outs);
    }
    if direction != Outgoing {
      var ids := ReadAdjacency(conn.adjIn, AdjKey(id, lbl), ins);
      if direction == Incoming {
        result := ids;
      } else {
        // An id listed already is not listed again.
        SortedNoDup(ids);
        result := AppendMissing(result, ids);
      }
    }
  }

  /** Appends what is not listed yet. */
  method AppendMissing(known: seq<u64>, ids: seq<u64>) returns (result: seq<u64>)
    requires NoDup(ids)
    ensures result == known + Excluding(ids, Elems(known))
  {
    hide Excluding, NoDup;
    result := known;
    NothingExcluded(ids, Elems(known));
    for i := 0 to |ids|
      invariant result == known + Excluding(ids[..i], Elems(known))
    {
      NotYetListed(known, ids, i);
      ExcludeOneMore(ids, i, Elems(known));
      if ids[i] !in result {
        result := result + [ids[i]];
      }
    }
    assert ids[..|ids|] == ids;
  }

  lemma NothingExcluded(ids: seq<u64>, known: set<u64>)
    ensures Excluding(ids[..0], known) == []
  {
  }

  lemma ExcludeOneMore(ids: seq<u64>, i: nat, known: set<u64>)
    requires i < |ids|
    ensures Excluding(ids[..i + 1], known) == Excluding(ids[..i], known) + (if ids[i] in known then [] else [ids[i]])
  {
    assert ids[..i + 1][..i] == ids[..i];
  }

  lemma NotYetListed(known: seq<u64>, ids: seq<u64>, i: nat)
    requires NoDup(ids) && i < |ids|
    ensures ids[i] in known + Excluding(ids[..i], Elems(known)) <==> ids[i] in Elems(known)
  {
    var listed := Excluding(ids[..i], Elems(known));
    ExcludingSpec(ids[..i], Elems(known));
    assert ids[i] !in Elems(ids[..i]);
    assert ids[i] in listed <==> ids[i] in Elems(listed);
  }

  // ---------------------------------------------------------------- edge types at a node

  /** The edge types at a node with their far ends, by label: the rows of one adjacency table. */
  ghost function LabelRows(edges: set<Edge>, id: u64, out: bool): seq<(Name, seq<u64>)> {
    var names := SortedKeys(LabelsAt(edges, id, out));
    seq(|names|, i requires 0 <= i < |names| => (names[i], SortedWords(FarEnds(edges, id, names[i], out))))
  }

  lemma LabelRowsAre(edges: set<Edge>, id: u64, out: bool)
    ensures var names, rows := SortedKeys(LabelsAt(edges, id, out)), LabelRows(edges, id, out);
            |rows| == |names| &&
            forall j :: 0 <= j < |names| ==> rows[j] == (names[j], SortedWords(FarEnds(edges, id, names[j], out)))
  {
  }

  lemma LabelsAtIff(edges: set<Edge>, id: u64, lbl: Name, out: bool)
    ensures lbl in LabelsAt(edges, id, out) <==> FarEnds(edges, id, lbl, out) != {}
  {
    if lbl in LabelsAt(edges, id, out) {
      var e :| e in edges && Near(e, out) == id && e.lbl == lbl;
      assert Far(e, out) in FarEnds(edges, id, lbl, out);
    }
    if FarEnds(edges, id, lbl, out) != {} {
      var x :| x in FarEnds(edges, id, lbl, out);
    }
  }

  lemma ScanAdjacency(t: Table<Key>, edges: set<Edge>, id: u64, out: bool)
    requires AdjOk(t, edges, out)
    ensures var names := SortedKeys(LabelsAt(edges, id, out));
            SortedKeys(Extensions(t.Keys, Word(id))) ==
            seq(|names|, i requires 0 <= i < |names| => AdjKey(id, names[i]))
  {
    var names, hits := SortedKeys(LabelsAt(edges, id, out)), Extensions(t.Keys, Word(id));
    var keys := seq(|names|, i requires 0 <= i < |names| => AdjKey(id, names[i]));
    forall i, j | 0 <= i < j < |keys| ensures Less(keys[i], keys[j]) {
      AdjKeyOrder(id, names[i], names[j]);
    }
    forall k | k in keys ensures k in hits {
      var i :| 0 <= i < |keys| && keys[i] == k;
      assert names[i] in Elems(names);
      LabelsAtIff(edges, id, names[i], out);
      assert AdjEntry(t, AdjKey(id, names[i]), FarEnds(edges, id, names[i], out));
      AdjPrefixExact(id, id, names[i]);
    }
    forall k | k in hits ensures k in keys {
      var lbl := AdjLabel(k);
      FromWordRoundTrip(k[..8]);
      assert k == k[..8] + k[8..] && k == AdjKey(AdjId(k), lbl);
      AdjPrefixExact(id, AdjId(k), lbl);
      assert AdjEntry(t, AdjKey(id, lbl), FarEnds(edges, id, lbl, out));
      LabelsAtIff(edges, id, lbl, out);
      assert lbl in Elems(names);
      var i :| 0 <= i < |names| && names[i] == lbl;
      assert keys[i] == k;
    }
    assert Elems(keys) == hits;
    KeysSortedUnique(keys, SortedKeys(hits));
  }

  lemma InElems(names: seq<Name>, name: Name)
    ensures name in names <==> name in Elems(names)
  {
  }

  /** `get_all_edge_labels` for one direction. */
  method GetEdgeLabels(conn: Connection, id: u64, out: bool) returns (result: seq<(Name, seq<u64>)>)
    requires conn.EdgesValid()
    ensures result == LabelRows(conn.edgeSet.Keys, id, out)
  {
    hide EdgesOk, AdjOk, AdjKey, FarEnds, LabelsAt, LabelRows, EdgeRowsOk, NumbersOk, TypeCountsOk, SortedKeys,
         SortedWords, Extensions, StrictlySorted, KeysSorted, ValidName, Word;
    ghost var edges := conn.edgeSet.Keys;
    EdgesOkParts(conn.EdgeState(), conn.edgeSet);
    var t := if out then conn.adjOut else conn.adjIn;
    var entries := ScanPrefix(t, Word(id));
    ScanAdjacency(t, edges, id, out);
    ghost var names, rows := SortedKeys(LabelsAt(edges, id, out)), LabelRows(edges, id, out);
    LabelRowsAre(edges, id, out);
    result := [];
    for i := 0 to |entries|
      invariant result == rows[..i]
    {
      assert names[i] in Elems(names);
      result := AppendLabelRow(result, entries[i], t, conn.edgeSet, id, names[i], out);
      TakeOneMore(rows, i, (names[i], SortedWords(FarEnds(edges, id, names[i], out))));
    }
  }

  /** One step of the loop of `get_all_edge_labels`. */
  method AppendLabelRow(result: seq<(Name, seq<u64>)>, entry: (Key, Key),
                        ghost t: Table<Key>, ghost edges: map<Edge, Props>, ghost id: u64, ghost lbl: Name,
                       ghost out: bool)
    returns (result': seq<(Name, seq<u64>)>)
    requires AdjOk(t, edges.Keys, out) && lbl in LabelsAt(edges.Keys, id, out)
    requires forall e :: e in edges ==> ValidName(e.lbl)
    requires entry.0 == AdjKey(id, lbl) && entry.0 in t && entry.1 == t[entry.0]
    ensures result' == result + [(lbl, SortedWords(FarEnds(edges.Keys, id, lbl, out)))]
  {
    hide AdjOk, AdjKey, FarEnds, LabelsAt, Ids;
    AdjacencyRow(t, edges, id, lbl, out);
    result' := result;
    if |entry.0| > 8 {
      var ids := DecodeIdList(entry.1);
      result' := result + [(entry.0[8..], ids.value)];
    }
  }

  /** The row of a type present at a node: its key shows the type, its bytes decode to the far ends. */
  lemma AdjacencyRow(t: Table<Key>, edges: map<Edge, Props>, id: u64, lbl: Name, out: bool)
    requires AdjOk(t, edges.Keys, out) && lbl in LabelsAt(edges.Keys, id, out)
    requires forall e :: e in edges ==> ValidName(e.lbl)
    ensures var key := AdjKey(id, lbl);
            && |key| > 8 && key[8..] == lbl && key in t
            && Ids(t[key], 0) == Some(SortedWords(FarEnds(edges.Keys, id, lbl, out)))
  {
    LabelsAtIff(edges.Keys, id, lbl, out);
    assert AdjEntry(t, AdjKey(id, lbl), FarEnds(edges.Keys, id, lbl, out));
    AdjKeyRoundTrip(id, lbl);
    IdListRoundTrip(SortedWords(FarEnds(edges.Keys, id, lbl, out)));
  }

  /** The labels a traversal without given labels follows from a node, in order. */
  ghost function AllLabels(edges: set<Edge>, id: u64, direction: Direction): seq<Name> {
    var outs, ins := SortedKeys(LabelsAt(edges, id, true)), SortedKeys(LabelsAt(edges, id, false));
    match direction
    case Outgoing => outs
    case Incoming => ins
    case Both => outs + Excluding(ins, Elems(outs))
  }

  /** Every edge type at the node is listed once. */
  lemma AllLabelsSpec(edges: set<Edge>, id: u64, direction: Direction)
    ensures NoDup(AllLabels(edges, id, direction))
    ensures forall lbl :: lbl in AllLabels(edges, id, direction) <==> Neighborhood(edges, id, lbl, direction) != {}
  {
    var outs, ins := SortedKeys(LabelsAt(edges, id, true)), SortedKeys(LabelsAt(edges, id, false));
    KeysSortedNoDup(outs);
    KeysSortedNoDup(ins);
    ExcludingSpec(ins, Elems(outs));
    NoDupConcat(outs, Excluding(ins, Elems(outs)));
    ElemsConcat(outs, Excluding(ins, Elems(outs)));
    forall lbl
      ensures lbl in AllLabels(edges, id, direction) <==> Neighborhood(edges, id, lbl, direction) != {}
    {
      LabelsAtIff(edges, id, lbl, true);
      LabelsAtIff(edges, id, lbl, false);
      assert lbl in outs <==> lbl in Elems(outs);
      assert lbl in ins <==> lbl in Elems(ins);
      assert lbl in AllLabels(edges, id, direction) <==> lbl in Elems(AllLabels(edges, id, direction));
    }
  }

  function Labels(rows: seq<(Name, seq<u64>)>): seq<Name> {
    seq(|rows|, i requires 0 <= i < |rows| => rows[i].0)
  }

  lemma LabelsOfRows(edges: set<Edge>, id: u64, out: bool)
    ensures Labels(LabelRows(edges, id, out)) == SortedKeys(LabelsAt(edges, id, out))
  {
  }

  /** The labels of `get_all_edge_labels`; the two directions are merged without repeats. */
  method GetAllEdgeLabels(conn: Connection, id: u64, direction: Direction) returns (names: seq<Name>)
    requires conn.EdgesValid()
    ensures names == AllLabels(conn.edgeSet.Keys, id, direction)
  {
    hide EdgesOk, LabelsAt, LabelRows, Labels, SortedKeys, Elems;
    LabelsOfRows(conn.edgeSet.Keys, id, true);
    LabelsOfRows(conn.edgeSet.Keys, id, false);
    var outs, ins := [], [];
    if direction != Incoming {
      var rows := GetEdgeLabels(conn, id, true);
      outs := Labels(rows);
    }
    if direction != Outgoing {
      var rows := GetEdgeLabels(conn, id, false);
      ins := Labels(rows);
    }
    names := outs;
    if direction == Incoming {
      return ins;
    }
    if direction == Both {
      for i := 0 to |ins|
        invariant names == outs + Excluding(ins[..i], Elems(outs))
      {
        assert ins[..i + 1][..i] == ins[..i];
        assert ins[i] in outs <==> ins[i] in Elems(outs) by { InElems(outs, ins[i]); }
        if ins[i] !in outs {
          names := names + [ins[i]];
        }
      }
      assert ins[..|ins|] == ins;
    }
  }
}
