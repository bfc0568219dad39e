/** Small shared definitions: optional values, 64-bit words, duplicate-free and sorted sequences. */
module Prelude {

  datatype Option<+T> = None | Some(value: T)

  datatype Outcome<+T, +E> = Ok(value: T) | Err(error: E)

  const U64_LIMIT := 0x1_0000_0000_0000_0000

  type u64 = x: nat | x < U64_LIMIT

  predicate NoDup<T(==)>(s: seq<T>) {
    forall i, j :: 0 <= i < j < |s| ==> s[i] != s[j]
  }

  function Elems<T>(s: seq<T>): set<T> {
    set x | x in s
  }

  lemma ElemsConcat<T>(a: seq<T>, b: seq<T>)
    ensures Elems(a + b) == Elems(a) + Elems(b)
  {
  }

  lemma ElemsSingle<T>(x: T)
    ensures Elems([x]) == {x}
  {
  }

  lemma TakeOneMore<T>(s: seq<T>, i: nat, x: T)
    requires i < |s| && s[i] == x
    ensures s[..i + 1] == s[..i] + [x]
  {
  }

  lemma NoDupConcat<T>(a: seq<T>, b: seq<T>)
    requires NoDup(a) && NoDup(b) && Elems(a) !! Elems(b)
    ensures NoDup(a + b)
  {
    forall i, j | 0 <= i < j < |a + b| ensures (a + b)[i] != (a + b)[j] {
      if i < |a| <= j {
        assert a[i] in Elems(a) && b[j - |a|] in Elems(b);
      }
    }
  }

  lemma {:induction false} NoDupCardinality<T>(s: seq<T>)
    requires NoDup(s)
    ensures |Elems(s)| == |s|
  {
    if s == [] {
    } else {
      var init, last := s[..|s| - 1], s[|s| - 1];
      NoDupCardinality(init);
      assert s == init + [last];
      ElemsConcat(init, [last]);
      ElemsSingle(last);
      assert last !in Elems(init);
    }
  }

  lemma SubsetCardinality<T>(a: set<T>, b: set<T>)
    requires a <= b
    ensures |a| <= |b|
  {
    assert b == a + (b - a);
  }

  // ---------------------------------------------------------------- sorted lists of numbers

  predicate StrictlySorted(s: seq<int>) {
    forall i, j :: 0 <= i < j < |s| ==> s[i] < s[j]
  }

  ghost predicate IsMax(s: set<int>, m: int) {
    m in s && forall x :: x in s ==> x <= m
  }

  lemma {:induction false} MaxExists(s: set<int>)
    requires s != {}
    ensures exists m :: IsMax(s, m)
  {
    assert exists y :: y in s by {
      if forall y :: y !in s { assert false; }
    }
    var y :| y in s;
    if s == {y} {
      assert IsMax(s, y);
    } else {
      var rest := s - {y};
      MaxExists(rest);
      var r :| IsMax(rest, r);
      assert s == rest + {y};
      assert IsMax(s, if r < y then y else r);
    }
  }

  /** The elements of a finite set of numbers, in increasing order. */
  ghost function SortedInts(s: set<int>): (r: seq<int>)
    ensures StrictlySorted(r) && Elems(r) == s
  {
    if s == {} then []
    else
      MaxExists(s);
      var m :| IsMax(s, m);
      var r := SortedInts(s - {m});
      assert forall i :: 0 <= i < |r| ==> r[i] in Elems(r);
      ElemsConcat(r, [m]);
      ElemsSingle(m);
      r + [m]
  }

  /** A strictly sorted list is determined by its elements. */
  lemma {:induction false} SortedUnique(a: seq<int>, b: seq<int>)
    requires StrictlySorted(a) && StrictlySorted(b) && Elems(a) == Elems(b)
    ensures a == b
  {
    SortedNoDup(a);
    SortedNoDup(b);
    NoDupCardinality(a);
    NoDupCardinality(b);
    if a != [] {
      var m, n := a[|a| - 1], b[|b| - 1];
      assert m in Elems(b) && n in Elems(a);
      assert m == n;
      DropLastElems(a);
      DropLastElems(b);
      SortedUnique(a[..|a| - 1], b[..|b| - 1]);
      assert a == a[..|a| - 1] + [m] && b == b[..|b| - 1] + [m];
    }
  }

  lemma SortedNoDup(s: seq<int>)
    requires StrictlySorted(s)
    ensures NoDup(s)
  {
  }

  lemma DropLastElems<T>(s: seq<T>)
    requires s != [] && NoDup(s)
    ensures Elems(s[..|s| - 1]) == Elems(s) - {s[|s| - 1]}
  {
    var m := s[|s| - 1];
    forall x | x in Elems(s) && x != m ensures x in s[..|s| - 1] {
      var k :| 0 <= k < |s| && s[k] == x;
      assert s[..|s| - 1][k] == x;
    }
  }

  // ---------------------------------------------------------------- lists without some elements

  /** The elements of `s` that are not in `known`, in order. */
  ghost function Excluding<T>(s: seq<T>, known: set<T>): seq<T> {
    if s == [] then []
    else
      var init := Excluding(s[..|s| - 1], known);
      if s[|s| - 1] in known then init else init + [s[|s| - 1]]
  }

  lemma {:induction false} ExcludingSpec<T>(s: seq<T>, known: set<T>)
    requires NoDup(s)
    ensures NoDup(Excluding(s, known))
    ensures Elems(Excluding(s, known)) == Elems(s) - known
  {
    if s != [] {
      var init, last := s[..|s| - 1], s[|s| - 1];
      ExcludingSpec(init, known);
      assert s == init + [last];
      ElemsConcat(init, [last]);
      ElemsSingle(last);
      assert last !in Elems(init);
      if last !in known {
        ElemsConcat(Excluding(init, known), [last]);
        NoDupConcat(Excluding(init, known), [last]);
      }
    }
  }

  // ---------------------------------------------------------------- division

  lemma QuotientIs(n: nat, b: int, k: int)
    requires b > 0 && b * k <= n < b * k + b
    ensures n / b == k
  {
    var q := n / b;
    DivisionBounds(n, b, q);
    if q < k {
      MultiplesOrder(b, q + 1, k);
    } else if q > k {
      MultiplesOrder(b, k + 1, q);
    }
  }

  lemma DivisionBounds(n: nat, b: int, q: int)
    requires b > 0 && q == n / b
    ensures b * q <= n < b * q + b
  {
  }

  lemma MultiplesOrder(b: int, x: int, y: int)
    requires b > 0 && x <= y
    ensures b * x <= b * y && b * x == b * (x - 1) + b
  {
  }

  // ---------------------------------------------------------------- searching

  /** The position of the first occurrence of `x`. */
  function First<T(==)>(s: seq<T>, x: T): (r: Option<nat>)
    ensures r.Some? ==> r.value < |s|
  {
    if s == [] then None
    else if s[0] == x then Some(0)
    else
      match First(s[1..], x)
      case None => None
      case Some(i) => Some(i + 1)
  }

  lemma {:induction false} FirstSpec<T>(head: seq<T>, x: T, rest: seq<T>)
    requires forall i :: 0 <= i < |head| ==> head[i] != x
    ensures First(head + [x] + rest, x) == Some(|head|)
    ensures First(head, x) == None
  {
    var s := head + [x] + rest;
    if head != [] {
      assert s[1..] == head[1..] + [x] + rest;
      FirstSpec(head[1..], x, rest);
    }
  }

  lemma {:induction false} FirstIs<T>(s: seq<T>, x: T)
    ensures match First(s, x)
            case None => x !in s
            case Some(i) => s[i] == x && x !in s[..i]
  {
    if s != [] && s[0] != x {
      FirstIs(s[1..], x);
      assert s == [s[0]] + s[1..];
      match First(s[1..], x) {
        case None =>
        case Some(i) => assert s[..i + 1] == [s[0]] + s[1..][..i];
      }
    }
  }

  /** `str::split` on one character: always one piece more than there are separators. */
  function Split<T(==)>(s: seq<T>, x: T): seq<seq<T>>
    decreases |s|
  {
    match First(s, x)
    case None => [s]
    case Some(i) => [s[..i]] + Split(s[i + 1..], x)
  }

  lemma SplitOne<T>(head: seq<T>, x: T, rest: seq<T>)
    requires forall i :: 0 <= i < |head| ==> head[i] != x
    ensures Split(head + [x] + rest, x) == [head] + Split(rest, x)
    ensures Split(head, x) == [head]
  {
    FirstSpec(head, x, rest);
    assert (head + [x] + rest)[..|head|] == head && (head + [x] + rest)[|head| + 1..] == rest;
  }
}
