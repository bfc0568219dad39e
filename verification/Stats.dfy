/** Persisted counters and id allocation (src/stats.rs, src/id.rs). */
module Stats {
  import opened Prelude
  import opened Bytes
  import opened Graph
  import opened Db

  /** `increment_label_count` and `increment_edge_type_count`. The caller shows that the sum fits. */
  method IncrementCount(conn: Connection, key: MetaKey)
    requires Counter(conn.meta, key) + 1 < U64_LIMIT
    modifies conn`meta
    ensures conn.meta == SetCounter(old(conn.meta), key, Counter(old(conn.meta), key) + 1)
  {
    var count := Counter(conn.meta, key);
    conn.meta := conn.meta[key := Word(count + 1)];
  }

  function SaturatingSub(a: u64, n: u64): u64 {
    if a <= n then 0 else a - n
  }

  /** `decrement_label_count` (by 1) and `decrement_edge_type_count_by`: saturating, and a
      counter that reaches 0 loses its row. */
  method DecrementCountBy(conn: Connection, key: MetaKey, n: u64)
    modifies conn`meta
    ensures conn.meta == SetCounter(old(conn.meta), key, SaturatingSub(Counter(old(conn.meta), key), n))
  {
    var count := Counter(conn.meta, key);
    var newCount := SaturatingSub(count, n);
    if newCount == 0 {
      conn.meta := conn.meta - {key};
    } else {
      conn.meta := conn.meta[key := Word(newCount)];
    }
  }

  /** `next_edge_seq`. Fails, having changed no stored number, once the numbers run out. */
  method NextEdgeSequence(conn: Connection) returns (r: Result<u64>)
    requires NextEdgeSeq in conn.meta ==> |conn.meta[NextEdgeSeq]| == 8
    modifies conn`meta
    ensures NextEdgeSeq in conn.meta && |conn.meta[NextEdgeSeq]| == 8
    ensures r == if NextSeq(old(conn.meta)) + 1 < U64_LIMIT then Ok(NextSeq(old(conn.meta))) else Err(SpaceExhausted)
    ensures NextSeq(conn.meta) == NextSeq(old(conn.meta)) + (if r.Ok? then 1 else 0)
    ensures conn.meta - {NextEdgeSeq} == old(conn.meta) - {NextEdgeSeq}
  {
    if NextEdgeSeq !in conn.meta {
      conn.meta := conn.meta[NextEdgeSeq := Word(0)];
    }
    WordRoundTrip(0);
    var current := FromWord(conn.meta[NextEdgeSeq]);
    if current + 1 >= U64_LIMIT {
      return Err(SpaceExhausted);
    }
    conn.meta := conn.meta[NextEdgeSeq := Word(current + 1)];
    WordRoundTrip(current + 1);
    return Ok(current);
  }

  /** `next_node_id`. The compare-and-swap cannot miss: a write transaction is the only writer. */
  method AllocateNodeId(conn: Connection) returns (r: Result<u64>)
    requires NextNodeId in conn.meta && |conn.meta[NextNodeId]| == 8
    modifies conn`meta
    ensures r == if Counter(old(conn.meta), NextNodeId) + 1 < U64_LIMIT
                 then Ok(Counter(old(conn.meta), NextNodeId)) else Err(SpaceExhausted)
    ensures r.Err? ==> conn.meta == old(conn.meta)
    ensures r.Ok? ==> conn.meta == old(conn.meta)[NextNodeId := Word(Counter(old(conn.meta), NextNodeId) + 1)]
  {
    var current := FromWord(conn.meta[NextNodeId]);
    if current + 1 >= U64_LIMIT {
      return Err(SpaceExhausted);
    }
    conn.meta := conn.meta[NextNodeId := Word(current + 1)];
    return Ok(current);
  }

  // ---------------------------------------------------------------- effect on the counter invariants

  /** Counting one more or fewer edges of one type leaves the other types' counters right. */
  lemma TypeCountUpdate(before: Meta, after: Meta, edges: set<Edge>, edges': set<Edge>, lbl: Name)
    requires TypeCountsOk(before, edges)
    requires forall l: Name :: l != lbl ==> OfType(edges', l) == OfType(edges, l)
    requires |OfType(edges', lbl)| < U64_LIMIT
    requires after == SetCounter(before, EdgeTypeCount(lbl), |OfType(edges', lbl)|)
    ensures TypeCountsOk(after, edges')
  {
    forall l: Name ensures CounterIs(after, EdgeTypeCount(l), |OfType(edges', l)|) {
      assert CounterIs(before, EdgeTypeCount(l), |OfType(edges, l)|);
    }
  }
}
