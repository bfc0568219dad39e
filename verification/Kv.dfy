/** Key-value tables and prefix scans (src/storage/kv.rs, src/storage/index.rs:298-308). */
module Kv {
  import opened Prelude
  import opened Bytes

  type Table<V> = map<Key, V>

  predicate Extends(prefix: Key, key: Key) {
    prefix <= key
  }

  /** The keys of a table that extend a prefix. */
  function Extensions(keys: set<Key>, prefix: Key): set<Key> {
    set k | k in keys && Extends(prefix, k)
  }

  /** `prefix_upper_bound`: pops trailing 0xFF bytes, then increments the last byte left. */
  method PrefixUpperBound(prefix: Key) returns (r: Option<Key>)
    ensures r == PrefixSuccessor(prefix)
  {
    var upper := prefix;
    while upper != []
      invariant PrefixSuccessor(upper) == PrefixSuccessor(prefix)
      decreases |upper|
    {
      var last := upper[|upper| - 1];
      if last < 255 {
        assert upper[|upper| - 1 := last + 1] == upper[..|upper| - 1] + [last + 1];
        return Some(upper[|upper| - 1 := last + 1]);
      }
      upper := upper[..|upper| - 1];
    }
    return None;
  }

  /** `next_prefix`: walks an index down over a copy and cuts the copy behind the incremented
      byte. The same bound by another loop. */
  method NextPrefix(prefix: Key) returns (r: Option<Key>)
    ensures r == PrefixSuccessor(prefix)
  {
    var out := prefix;
    assert prefix[..|prefix|] == prefix;
    for i := |out| downto 0
      invariant out == prefix
      invariant PrefixSuccessor(prefix) == PrefixSuccessor(prefix[..i])
    {
      assert prefix[..i + 1][..i] == prefix[..i];
      if out[i] < 255 {
        out := out[i := out[i] + 1];
        assert out[..i + 1] == prefix[..i] + [prefix[i] + 1];
        return Some(out[..i + 1]);
      }
    }
    return None;
  }

  /** The keys with `key >= lower AND key < upper`; no upper end when there is none. */
  function Range(keys: set<Key>, lower: Key, upper: Option<Key>): set<Key> {
    set k | k in keys && AtMost(lower, k) && (upper.Some? ==> Less(k, upper.value))
  }

  /** The rows of a range query in key order, as SQLite returns them. */
  method SelectRange<V>(t: Table<V>, lower: Key, upper: Option<Key>) returns (keys: seq<Key>)
    ensures keys == SortedKeys(Range(t.Keys, lower, upper))
  {
    var left := Range(t.Keys, lower, upper);
    ghost var all := left;
    keys := [];
    while left != {}
      invariant KeysSorted(keys) && Elems(keys) + left == all
      invariant forall k, x :: k in keys && x in left ==> Less(k, x)
      decreases left
    {
      MinKeyExists(left);
      var m :| m in left && forall x :: x in left ==> AtMost(m, x);
      ElemsConcat(keys, [m]);
      ElemsSingle(m);
      keys, left := keys + [m], left - {m};
    }
    assert Elems(keys) == all;
    KeysSortedUnique(keys, SortedKeys(all));
  }

  lemma {:induction false} MinKeyExists(s: set<Key>)
    requires s != {}
    ensures exists m :: m in s && forall x :: x in s ==> AtMost(m, x)
  {
    var r := SortedKeys(s);
    assert |r| > 0;
    assert r[0] in Elems(r);
    forall x | x in s ensures AtMost(r[0], x) {
      assert x in Elems(r);
    }
  }

  /** `scan_prefix`: exactly the rows whose key extends the prefix, in key order. */
  method ScanPrefix<V>(t: Table<V>, prefix: Key) returns (rows: seq<(Key, V)>)
    ensures |rows| == |SortedKeys(Extensions(t.Keys, prefix))|
    ensures forall i :: 0 <= i < |rows| ==>
              rows[i].0 == SortedKeys(Extensions(t.Keys, prefix))[i] &&
              rows[i].0 in t && rows[i].1 == t[rows[i].0]
  {
    var upper := PrefixUpperBound(prefix);
    var keys := SelectRange(t, prefix, upper);
    forall k ensures k in Range(t.Keys, prefix, upper) <==> k in Extensions(t.Keys, prefix) {
      PrefixRangeExact(prefix, k);
    }
    assert Range(t.Keys, prefix, upper) == Extensions(t.Keys, prefix);
    assert forall i :: 0 <= i < |keys| ==> keys[i] in Elems(keys);
    rows := seq(|keys|, i requires 0 <= i < |keys| => (keys[i], t[keys[i]]));
  }
}
