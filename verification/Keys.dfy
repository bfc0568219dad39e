/** Row keys of the adjacency and edge tables (src/storage/edge.rs:12-66). */
module Keys {
  import opened Prelude
  import opened Bytes
  import opened Graph
  import opened Kv

  /** `[node id: 8 bytes][label]`. */
  function AdjKey(id: u64, lbl: Name): Key {
    Word(id) + lbl
  }

  /** `[src: 8 bytes][dst: 8 bytes][label][0x00]`. */
  function EdgePrefix(src: u64, dst: u64, lbl: Name): Key {
    Word(src) + Word(dst) + lbl + [0]
  }

  /** `[src: 8 bytes][dst: 8 bytes][label][0x00][seq: 8 bytes]`. */
  function EdgeKey(e: Edge): Key {
    EdgePrefix(e.src, e.dst, e.lbl) + Word(e.num)
  }

  /** `edge_seq_from_key`. */
  function EdgeSeqFromKey(key: Key, prefixLen: nat): u64 {
    if |key| >= prefixLen + 8 then FromWord(key[prefixLen..prefixLen + 8]) else 0
  }

  /** `label_from_edge_props_key`: the bytes from 16 up to the first NUL. */
  function LabelFromEdgePropsKey(key: Key): (r: Option<Name>)
    ensures r.Some? ==> 16 + |r.value| < |key|
  {
    if |key| < 16 then None
    else
      match First(key[16..], 0)
      case None => None
      case Some(nul) => Some(key[16..][..nul])
  }

  /** The edge a key of `edge_props` stands for. */
  function EdgeFromKey(key: Key): Option<Edge> {
    match LabelFromEdgePropsKey(key)
    case None => None
    case Some(lbl) =>
      Some(Edge(FromWord(key[..8]), FromWord(key[8..16]), lbl, EdgeSeqFromKey(key, 16 + |lbl| + 1)))
  }

  /** Edge keys decode to the edge they were made of, so distinct edges have distinct rows. */
  lemma EdgeKeyRoundTrip(e: Edge)
    requires NulFree(e.lbl)
    ensures LabelFromEdgePropsKey(EdgeKey(e)) == Some(e.lbl)
    ensures EdgeSeqFromKey(EdgeKey(e), |EdgePrefix(e.src, e.dst, e.lbl)|) == e.num
    ensures EdgeFromKey(EdgeKey(e)) == Some(e)
  {
    var key, lbl, w := EdgeKey(e), e.lbl, Word(e.num);
    WordRoundTrip(e.src);
    WordRoundTrip(e.dst);
    WordRoundTrip(e.num);
    assert key[..8] == Word(e.src);
    assert key[8..16] == Word(e.dst);
    assert key[16..] == lbl + [0] + w;
    FirstSpec(lbl, 0, w);
    assert (lbl + [0] + w)[..|lbl|] == lbl;
    assert key[16 + |lbl| + 1..16 + |lbl| + 1 + 8] == w;
  }

  /** Whatever the labels, distinct edges have distinct keys: the length of a key tells that of its
      label. */
  lemma EdgeKeyInjective(e: Edge, f: Edge)
    ensures EdgeKey(e) == EdgeKey(f) <==> e == f
  {
    var a, b := EdgeKey(e), EdgeKey(f);
    if a == b {
      assert |e.lbl| == |f.lbl|;
      KeyParts(e);
      KeyParts(f);
    }
  }

  lemma KeyParts(e: Edge)
    ensures var key, n := EdgeKey(e), |e.lbl|;
            && |key| == n + 25
            && FromWord(key[..8]) == e.src && FromWord(key[8..16]) == e.dst
            && key[16..16 + n] == e.lbl && FromWord(key[17 + n..]) == e.num
  {
    var key, n := EdgeKey(e), |e.lbl|;
    WordRoundTrip(e.src);
    WordRoundTrip(e.dst);
    WordRoundTrip(e.num);
    assert key[..8] == Word(e.src) && key[8..16] == Word(e.dst);
    assert key[16..16 + n] == e.lbl && key[17 + n..] == Word(e.num);
  }

  /** Scanning an edge prefix hits the rows of that (src, dst, label) and no others. */
  lemma EdgePrefixExact(src: u64, dst: u64, lbl: Name, e: Edge)
    requires NulFree(lbl) && NulFree(e.lbl)
    ensures Extends(EdgePrefix(src, dst, lbl), EdgeKey(e)) <==>
            e.src == src && e.dst == dst && e.lbl == lbl
  {
    var prefix, key := EdgePrefix(src, dst, lbl), EdgeKey(e);
    if Extends(prefix, key) {
      assert prefix == key[..|prefix|];
      assert prefix[..8] == key[..8] && prefix[8..16] == key[8..16];
      WordRoundTrip(src);
      WordRoundTrip(dst);
      WordRoundTrip(e.src);
      WordRoundTrip(e.dst);
      assert key[..8] == Word(e.src) && prefix[..8] == Word(src);
      assert key[8..16] == Word(e.dst) && prefix[8..16] == Word(dst);
      var tail := key[16..];
      assert tail == e.lbl + [0] + Word(e.num);
      assert prefix[16..] == lbl + [0];
      assert tail == lbl + [0] + tail[|lbl| + 1..] by {
        assert key == prefix + key[|prefix|..];
      }
      FirstSpec(lbl, 0, tail[|lbl| + 1..]);
      FirstSpec(e.lbl, 0, Word(e.num));
      assert |lbl| == |e.lbl|;
      assert lbl == tail[..|lbl|] && e.lbl == tail[..|e.lbl|];
      assert FromWord(Word(src)) == FromWord(Word(e.src));
      assert FromWord(Word(dst)) == FromWord(Word(e.dst));
    } else {
      assert (prefix + Word(e.num))[..|prefix|] == prefix;
    }
  }

  /** Without that rule on labels a scan can run into rows of another type: the prefix of label
      "A\0\0\0" is the start of the row of label "A" with sequence number 0. */
  lemma NulLabelScansOtherRows(src: u64, dst: u64)
    ensures Extends(EdgePrefix(src, dst, [65, 0, 0, 0]), EdgeKey(Edge(src, dst, [65], 0)))
  {
    var w := Word(0);
    WordZero();
    assert EdgeKey(Edge(src, dst, [65], 0)) == EdgePrefix(src, dst, [65, 0, 0, 0]) + w[3..];
  }

  lemma WordZero()
    ensures Word(0) == [0, 0, 0, 0, 0, 0, 0, 0]
  {
    assert BigEndian(0, 2) == [0, 0];
    assert BigEndian(0, 4) == [0, 0, 0, 0];
    assert BigEndian(0, 6) == [0, 0, 0, 0, 0, 0];
  }

  /** Rows of parallel edges sort by sequence number. */
  lemma EdgeKeyOrder(src: u64, dst: u64, lbl: Name, a: u64, b: u64)
    ensures Less(EdgeKey(Edge(src, dst, lbl, a)), EdgeKey(Edge(src, dst, lbl, b))) <==> a < b
  {
    LessCommonPrefix(EdgePrefix(src, dst, lbl), Word(a), Word(b));
    WordOrder(a, b);
  }

  /** The rows of one node stand together, in the order of the ids, and within them those to one target. */
  lemma EdgeKeysBySource(e: Edge, f: Edge)
    requires e.src < f.src || (e.src == f.src && e.dst < f.dst)
    ensures Less(EdgeKey(e), EdgeKey(f))
  {
    hide Word;
    var a, b := Word(e.dst) + e.lbl + [0] + Word(e.num), Word(f.dst) + f.lbl + [0] + Word(f.num);
    assert EdgeKey(e) == Word(e.src) + a && EdgeKey(f) == Word(f.src) + b;
    if e.src < f.src {
      WordOrder(e.src, f.src);
      LessExtended(Word(e.src), a, Word(f.src), b);
    } else {
      WordOrder(e.dst, f.dst);
      assert a == Word(e.dst) + (e.lbl + [0] + Word(e.num)) && b == Word(f.dst) + (f.lbl + [0] + Word(f.num));
      LessExtended(Word(e.dst), e.lbl + [0] + Word(e.num), Word(f.dst), f.lbl + [0] + Word(f.num));
      LessCommonPrefix(Word(e.src), a, b);
    }
  }

  /** A key shows no label exactly when it is shorter than two ids or has no NUL behind them. */
  lemma KeyWithoutLabel(key: Key)
    ensures LabelFromEdgePropsKey(key).None? <==> |key| < 16 || 0 !in key[16..]
    ensures LabelFromEdgePropsKey(key).Some? ==> 0 !in LabelFromEdgePropsKey(key).value
  {
    if |key| >= 16 {
      FirstIs(key[16..], 0);
    }
  }

  // ---------------------------------------------------------------- adjacency keys

  function AdjId(key: Key): u64
    requires |key| >= 8
  {
    FromWord(key[..8])
  }

  function AdjLabel(key: Key): Name
    requires |key| >= 8
  {
    key[8..]
  }

  lemma AdjKeyRoundTrip(id: u64, lbl: Name)
    ensures AdjId(AdjKey(id, lbl)) == id && AdjLabel(AdjKey(id, lbl)) == lbl
  {
    WordRoundTrip(id);
    assert AdjKey(id, lbl)[..8] == Word(id);
  }

  lemma AdjKeyInjective(a: u64, l: Name, b: u64, m: Name)
    ensures AdjKey(a, l) == AdjKey(b, m) <==> a == b && l == m
  {
    AdjKeyRoundTrip(a, l);
    AdjKeyRoundTrip(b, m);
  }

  lemma AdjPrefixExact(id: u64, other: u64, lbl: Name)
    ensures Extends(Word(id), AdjKey(other, lbl)) <==> id == other
  {
    WordRoundTrip(id);
    WordRoundTrip(other);
    assert AdjKey(other, lbl)[..8] == Word(other);
    assert Extends(Word(id), AdjKey(other, lbl)) <==> AdjKey(other, lbl)[..8] == Word(id);
  }

  lemma AdjKeyOrder(id: u64, l: Name, m: Name)
    ensures Less(AdjKey(id, l), AdjKey(id, m)) <==> Less(l, m)
  {
    LessCommonPrefix(Word(id), l, m);
  }
}
