/** Byte strings: the lexicographic order SQLite uses on BLOB keys, big-endian words, and the
    successor of a key prefix. */
module Bytes {
  import opened Prelude

  type byte = x: int | 0 <= x < 256

  type Key = seq<byte>

  /** SQLite's `memcmp` order on BLOBs: a proper prefix sorts first. */
  predicate Less(a: Key, b: Key) {
    if b == [] then false
    else if a == [] then true
    else a[0] < b[0] || (a[0] == b[0] && Less(a[1..], b[1..]))
  }

  predicate AtMost(a: Key, b: Key) {
    a == b || Less(a, b)
  }

  lemma {:induction false} LessIrreflexive(a: Key)
    ensures !Less(a, a)
  {
    if a != [] {
      LessIrreflexive(a[1..]);
    }
  }

  lemma {:induction false} LessTransitive(a: Key, b: Key, c: Key)
    requires Less(a, b) && Less(b, c)
    ensures Less(a, c)
  {
    if a != [] && a[0] == b[0] && b[0] == c[0] {
      LessTransitive(a[1..], b[1..], c[1..]);
    }
  }

  lemma {:induction false} LessTotal(a: Key, b: Key)
    ensures Less(a, b) || a == b || Less(b, a)
  {
    if a != [] && b != [] && a[0] == b[0] {
      LessTotal(a[1..], b[1..]);
      if a[1..] == b[1..] {
        assert a == [a[0]] + a[1..] && b == [b[0]] + b[1..];
      }
    }
  }

  /** Prepending a common prefix does not change the order. */
  lemma {:induction false} LessCommonPrefix(p: Key, a: Key, b: Key)
    ensures Less(p + a, p + b) == Less(a, b)
  {
    if p == [] {
      assert p + a == a && p + b == b;
    } else {
      LessCommonPrefix(p[1..], a, b);
      assert (p + a)[1..] == p[1..] + a && (p + b)[1..] == p[1..] + b;
    }
  }

  // ---------------------------------------------------------------- big-endian words

  function Pow256(w: nat): (r: nat)
    ensures r >= 1
  {
    if w == 0 then 1 else 256 * Pow256(w - 1)
  }

  /** `n` as `w` big-endian bytes. */
  function BigEndian(n: nat, w: nat): (r: Key)
    ensures |r| == w
  {
    if w == 0 then [] else BigEndian(n / 256, w - 1) + [n % 256]
  }

  function FromBigEndian(s: Key): nat {
    if s == [] then 0 else FromBigEndian(s[..|s| - 1]) * 256 + s[|s| - 1]
  }

  lemma {:induction false} LessExtended(a: Key, x: Key, b: Key, y: Key)
    requires |a| == |b| && Less(a, b)
    ensures Less(a + x, b + y)
  {
    if a != [] {
      assert (a + x)[1..] == a[1..] + x && (b + y)[1..] == b[1..] + y;
      if a[0] == b[0] {
        LessExtended(a[1..], x, b[1..], y);
      }
    }
  }

  /** Byte order in full: a proper prefix comes first, else the first byte that differs decides. */
  lemma LessWritten(a: Key, b: Key)
    ensures Less(a, b) <==> (a <= b && a != b) || exists i: nat :: DiffersAt(a, b, i) && a[i] < b[i]
  {
    hide Less, DiffersAt;
    if a == b {
      LessIrreflexive(a);
      assert forall i: nat :: !DiffersAt(a, b, i) by { NoDifference(a); }
    } else if i: nat :| DiffersAt(a, b, i) {
      AtDifference(a, b, i);
    } else {
      OnePrefixOfOther(a, b);
    }
  }

  lemma NoDifference(a: Key)
    ensures forall i: nat :: !DiffersAt(a, a, i)
  {
  }

  /** Where two keys differ first, their bytes there decide. */
  lemma AtDifference(a: Key, b: Key, i: nat)
    requires DiffersAt(a, b, i)
    ensures !(a <= b) && (Less(a, b) <==> a[i] < b[i]) && forall j: nat :: DiffersAt(a, b, j) ==> j == i
  {
    var p := a[..i];
    assert a == p + a[i..] && b == p + b[i..];
    LessCommonPrefix(p, a[i..], b[i..]);
    SameBefore(a, b, i);
    forall j: nat | DiffersAt(a, b, j) ensures j == i {
      SameBefore(a, b, j);
    }
  }

  lemma SameBefore(a: Key, b: Key, i: nat)
    requires DiffersAt(a, b, i)
    ensures forall k :: 0 <= k < i ==> a[k] == b[k]
  {
    assert forall k :: 0 <= k < i ==> a[..i][k] == a[k] && b[..i][k] == b[k];
  }

  /** Keys that differ nowhere are prefixes of one another. */
  lemma OnePrefixOfOther(a: Key, b: Key)
    requires a != b && forall i: nat :: !DiffersAt(a, b, i)
    ensures Less(a, b) <==> a <= b
  {
    var n := if |a| < |b| then |a| else |b|;
    Agreement(a, b, n);
    if |a| <= |b| {
      assert a == a + [] && b == a + b[n..];
      LessCommonPrefix(a, [], b[n..]);
    } else {
      assert a == b + a[n..] && b == b + [];
      LessCommonPrefix(b, a[n..], []);
    }
  }

  lemma {:induction false} Agreement(a: Key, b: Key, n: nat)
    requires n <= |a| && n <= |b| && forall i: nat :: !DiffersAt(a, b, i)
    ensures a[..n] == b[..n]
  {
    if n > 0 {
      Agreement(a, b, n - 1);
      assert !DiffersAt(a, b, n - 1);
      assert a[..n] == a[..n - 1] + [a[n - 1]] && b[..n] == b[..n - 1] + [b[n - 1]];
    }
  }

  predicate DiffersAt(a: Key, b: Key, i: nat) {
    i < |a| && i < |b| && a[..i] == b[..i] && a[i] != b[i]
  }

  lemma {:induction false} BigEndianRoundTrip(n: nat, w: nat)
    requires n < Pow256(w)
    ensures FromBigEndian(BigEndian(n, w)) == n
  {
    if w > 0 {
      BigEndianRoundTrip(n / 256, w - 1);
      var s := BigEndian(n, w);
      assert s[..|s| - 1] == BigEndian(n / 256, w - 1);
    }
  }

  lemma {:induction false} FromBigEndianRoundTrip(s: Key)
    ensures FromBigEndian(s) < Pow256(|s|)
    ensures BigEndian(FromBigEndian(s), |s|) == s
  {
    if s != [] {
      var init := s[..|s| - 1];
      FromBigEndianRoundTrip(init);
      var n := FromBigEndian(s);
      assert n / 256 == FromBigEndian(init) && n % 256 == s[|s| - 1];
      assert s == init + [s[|s| - 1]];
    }
  }

  /** Big-endian words of equal width compare as numbers. */
  lemma {:induction false} BigEndianOrder(a: nat, b: nat, w: nat)
    requires a < Pow256(w) && b < Pow256(w)
    ensures Less(BigEndian(a, w), BigEndian(b, w)) <==> a < b
  {
    if w > 0 {
      var ha, hb := BigEndian(a / 256, w - 1), BigEndian(b / 256, w - 1);
      BigEndianOrder(a / 256, b / 256, w - 1);
      LessAppendLast(ha, a % 256, hb, b % 256);
      BigEndianRoundTrip(a / 256, w - 1);
      BigEndianRoundTrip(b / 256, w - 1);
    }
  }

  lemma {:induction false} LessAppendLast(a: Key, x: byte, b: Key, y: byte)
    requires |a| == |b|
    ensures Less(a + [x], b + [y]) <==> Less(a, b) || (a == b && x < y)
  {
    if a == [] {
    } else {
      LessAppendLast(a[1..], x, b[1..], y);
      assert (a + [x])[1..] == a[1..] + [x] && (b + [y])[1..] == b[1..] + [y];
      if a[0] == b[0] && a[1..] == b[1..] {
        assert a == [a[0]] + a[1..] && b == [b[0]] + b[1..];
      }
    }
  }

  /** `u64::to_be_bytes`. */
  function Word(n: u64): (r: Key)
    ensures |r| == 8
  {
    BigEndian(n, 8)
  }

  lemma Pow256At8()
    ensures Pow256(8) == U64_LIMIT
  {
    assert Pow256(2) == 0x1_0000;
    assert Pow256(4) == 0x1_0000_0000;
    assert Pow256(6) == 0x1_0000_0000_0000;
  }

  /** `u64::from_be_bytes`. */
  function FromWord(s: Key): (n: u64)
    requires |s| == 8
  {
    FromBigEndianRoundTrip(s);
    Pow256At8();
    FromBigEndian(s)
  }

  lemma WordRoundTrip(n: u64)
    ensures FromWord(Word(n)) == n
  {
    Pow256At8();
    BigEndianRoundTrip(n, 8);
  }

  lemma FromWordRoundTrip(s: Key)
    requires |s| == 8
    ensures Word(FromWord(s)) == s
  {
    FromBigEndianRoundTrip(s);
  }

  lemma WordOrder(a: u64, b: u64)
    ensures Less(Word(a), Word(b)) <==> a < b
  {
    Pow256At8();
    BigEndianOrder(a, b, 8);
  }

  // ---------------------------------------------------------------- sorted lists of keys

  predicate KeysSorted(s: seq<Key>) {
    forall i, j :: 0 <= i < j < |s| ==> Less(s[i], s[j])
  }

  predicate IsMaxKey(s: set<Key>, m: Key) {
    m in s && forall x :: x in s ==> AtMost(x, m)
  }

  lemma {:induction false} MaxKeyExists(s: set<Key>)
    requires s != {}
    ensures exists m :: IsMaxKey(s, m)
  {
    var y :| y in s;
    if s == {y} {
      assert IsMaxKey(s, y);
    } else {
      var rest := s - {y};
      MaxKeyExists(rest);
      var r :| IsMaxKey(rest, r);
      LessTotal(r, y);
      var m := if Less(r, y) then y else r;
      forall x | x in s ensures AtMost(x, m) {
        if x != y && x != r {
          assert x in rest;
          if m == y && r != y {
            LessTransitive(x, r, y);
          }
        }
      }
      assert IsMaxKey(s, m);
    }
  }

  /** The keys of a finite set in the order of a B-tree scan. */
  ghost function SortedKeys(s: set<Key>): (r: seq<Key>)
    ensures KeysSorted(r) && Elems(r) == s
  {
    if s == {} then []
    else
      MaxKeyExists(s);
      var m :| IsMaxKey(s, m);
      var r := SortedKeys(s - {m});
      assert forall i :: 0 <= i < |r| ==> r[i] in Elems(r);
      ElemsConcat(r, [m]);
      ElemsSingle(m);
      r + [m]
  }

  lemma KeysSortedNoDup(s: seq<Key>)
    requires KeysSorted(s)
    ensures NoDup(s)
  {
    forall i, j | 0 <= i < j < |s| ensures s[i] != s[j] {
      LessIrreflexive(s[i]);
    }
  }

  lemma {:induction false} KeysSortedUnique(a: seq<Key>, b: seq<Key>)
    requires KeysSorted(a) && KeysSorted(b) && Elems(a) == Elems(b)
    ensures a == b
  {
    hide Less, NoDup;
    KeysSortedNoDup(a);
    KeysSortedNoDup(b);
    NoDupCardinality(a);
    NoDupCardinality(b);
    if a != [] {
      var m := a[|a| - 1];
      var n := b[|b| - 1];
      assert m in Elems(b) && n in Elems(a);
      var j :| 0 <= j < |b| && b[j] == m;
      var i :| 0 <= i < |a| && a[i] == n;
      if m != n {
        assert Less(m, n) && Less(n, m);
        LessTransitive(m, n, m);
        LessIrreflexive(m);
      }
      var a', b' := a[..|a| - 1], b[..|b| - 1];
      assert a == a' + [m] && b == b' + [m];
      DropLastElems(a);
      DropLastElems(b);
      KeysSortedUnique(a', b');
    }
  }

  // ---------------------------------------------------------------- prefix ranges

  /** The least byte string above every extension of `prefix`, if there is one. */
  function PrefixSuccessor(prefix: Key): Option<Key> {
    if prefix == [] then None
    else
      var last := prefix[|prefix| - 1];
      if last < 255 then Some(prefix[..|prefix| - 1] + [last + 1])
      else PrefixSuccessor(prefix[..|prefix| - 1])
  }

  /** The range condition of a prefix scan: `key >= prefix AND key < successor`. */
  predicate InPrefixRange(prefix: Key, key: Key) {
    AtMost(prefix, key) &&
    match PrefixSuccessor(prefix)
    case Some(upper) => Less(key, upper)
    case None => true
  }

  /** `PrefixSuccessor` seen from the front of the prefix. */
  lemma {:induction false} PrefixSuccessorFront(b: byte, rest: Key)
    ensures PrefixSuccessor([b] + rest) ==
            match PrefixSuccessor(rest)
            case Some(upper) => Some([b] + upper)
            case None => if b < 255 then Some([b + 1]) else None
  {
    var p := [b] + rest;
    if rest == [] {
      assert p == [b] && p[..|p| - 1] == [];
      assert PrefixSuccessor([]) == None;
      if b < 255 {
        assert p[..|p| - 1] + [b + 1] == [b + 1];
      }
    } else {
      var init := rest[..|rest| - 1];
      assert p[..|p| - 1] == [b] + init;
      PrefixSuccessorFront(b, init);
      if rest[|rest| - 1] < 255 {
        assert [b] + (init + [rest[|rest| - 1] + 1]) == ([b] + init) + [rest[|rest| - 1] + 1];
      }
    }
  }

  /** The range of a prefix scan holds exactly the keys that extend the prefix, for every
      prefix, the empty one and the all-0xFF ones included. */
  lemma {:induction false} PrefixRangeExact(prefix: Key, key: Key)
    ensures InPrefixRange(prefix, key) <==> prefix <= key
  {
    if prefix == [] {
    } else {
      var rest := prefix[1..];
      assert prefix == [prefix[0]] + rest;
      PrefixSuccessorFront(prefix[0], rest);
      if key == [] {
      } else {
        PrefixRangeExact(rest, key[1..]);
        assert key == [key[0]] + key[1..];
        assert prefix <= key <==> prefix[0] == key[0] && rest <= key[1..];
        assert AtMost(prefix, key) <==>
               prefix[0] < key[0] || (prefix[0] == key[0] && AtMost(rest, key[1..]));
        if prefix[0] == key[0] {
          var up := PrefixSuccessor(rest);
          if up.Some? {
            assert ([prefix[0]] + up.value)[1..] == up.value;
          }
        } else if PrefixSuccessor(rest).None? && prefix[0] < key[0] && prefix[0] < 255 {
          assert !Less(key, [prefix[0] + 1]);
        }
      }
    }
  }
}
