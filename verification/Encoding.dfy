/** Delta-varint encoding of adjacency lists (src/storage/encoding.rs).

    A varint is an unsigned LEB128 number, section 7.6 of DWARF Version 5. Arithmetic that the
    source would fault on (a shift by 64 or more, a 64-bit sum that overflows) is the outcome
    `Fault` here. */
module Encoding {
  import opened Prelude
  import opened Bytes

  // ---------------------------------------------------------------- varints

  function Varint(v: nat): (r: Key) {
    if v < 128 then [v] else [128 + v % 128] + Varint(v / 128)
  }

  method EncodeVarint(v: u64, buf: Key) returns (out: Key)
    ensures out == buf + Varint(v)
  {
    var value: nat := v;
    out := buf;
    while true
      invariant out + Varint(value) == buf + Varint(v)
      decreases value
    {
      var b: byte := value % 128;
      var rest := value / 128;
      assert value >= 128 ==> Varint(value) == [128 + b] + Varint(rest);
      value := rest;
      if value != 0 {
        b := b + 128;
      }
      ghost var before := out;
      out := out + [b];
      if value == 0 {
        break;
      }
      assert before + ([b] + Varint(value)) == out + Varint(value);
    }
  }

  datatype VarintRead = Truncated | Fault | Read(value: u64, count: nat)

  function Pow2(n: nat): (r: nat)
    ensures r >= 1
  {
    if n == 0 then 1 else 2 * Pow2(n - 1)
  }

  /** The value with the low seven bits of the `i`-th byte put in; what passes 64 bits is lost. */
  function PutGroup(acc: u64, b: byte, i: nat): u64 {
    (acc + (b % 128) * Pow2(7 * i)) % U64_LIMIT
  }

  /** What the decoding loop does with the bytes from the `i`-th on, with `acc` gathered so far. */
  function ReadVarint(data: Key, i: nat, acc: u64): (r: VarintRead)
    ensures r.Read? ==> i < r.count <= i + |data|
    decreases |data|
  {
    if data == [] then Truncated
    else if 7 * i >= 64 then Fault
    else
      var next := PutGroup(acc, data[0], i);
      if data[0] < 128 then Read(next, i + 1) else ReadVarint(data[1..], i + 1, next)
  }

  method DecodeVarint(data: Key) returns (r: VarintRead)
    ensures r == ReadVarint(data, 0, 0)
  {
    var value: u64, shift := 0, 0;
    for i := 0 to |data|
      invariant shift == 7 * i
      invariant ReadVarint(data, 0, 0) == ReadVarint(data[i..], i, value)
    {
      assert data[i..][1..] == data[i + 1..];
      if shift >= 64 {
        return Fault;
      }
      value := (value + (data[i] % 128) * Pow2(shift)) % U64_LIMIT;
      if data[i] < 128 {
        return Read(value, i + 1);
      }
      shift := shift + 7;
    }
    return Truncated;
  }

  lemma {:induction false} VarintLength(v: nat, n: nat)
    requires n >= 1 && v < Pow2(7 * n)
    ensures 1 <= |Varint(v)| <= n
  {
    if v >= 128 {
      assert Pow2(7) == 128;
      if n == 1 {
        assert false;
      }
      Pow2Sum(7 * (n - 1), 7);
      VarintLength(v / 128, n - 1);
    }
  }

  lemma {:induction false} Pow2Sum(a: nat, b: nat)
    ensures Pow2(a + b) == Pow2(a) * Pow2(b)
  {
    if b > 0 {
      Pow2Sum(a, b - 1);
    }
  }

  lemma Pow2At64()
    ensures Pow2(64) == U64_LIMIT
    ensures Pow2(70) == 64 * U64_LIMIT
  {
    assert Pow2(4) == 16;
    Pow2Sum(4, 4);
    Pow2Sum(8, 8);
    Pow2Sum(16, 16);
    Pow2Sum(32, 32);
    assert Pow2(6) == 4 * Pow2(4);
    Pow2Sum(64, 6);
  }

  lemma SplitLowBits(v: nat, p: nat)
    ensures v * p == (v % 128) * p + (v / 128) * (128 * p)
    ensures (v / 128) * (128 * p) >= 0 && (v % 128) * p >= 0
  {
    assert v == v % 128 + 128 * (v / 128);
    assert (v / 128) * (128 * p) == (128 * (v / 128)) * p;
    assert (v % 128) * p + (128 * (v / 128)) * p == (v % 128 + 128 * (v / 128)) * p;
  }

  lemma NextGroup(i: nat)
    ensures Pow2(7 * (i + 1)) == 128 * Pow2(7 * i)
    ensures i >= 9 ==> 128 * Pow2(7 * i) >= U64_LIMIT
  {
    Pow2Sum(7 * i, 7);
    assert Pow2(7) == 128;
    assert 7 * (i + 1) == 7 * i + 7;
    if i >= 9 {
      Pow2Sum(70, 7 * i - 63);
      assert 70 + (7 * i - 63) == 7 * (i + 1);
      Pow2At64();
    }
  }

  lemma NoRoomForMore(v: nat, p: nat)
    requires v >= 128 && 128 * p >= U64_LIMIT
    ensures v * p >= U64_LIMIT
  {
    assert v * p == 128 * p + (v - 128) * p;
  }

  /** One byte of the decoding loop when nothing is cut off at 64 bits. */
  lemma ReadVarintStep(data: Key, i: nat, acc: u64, x: nat)
    requires data != [] && i <= 9
    requires x == (data[0] % 128) * Pow2(7 * i) && acc + x < U64_LIMIT
    ensures data[0] < 128 ==> ReadVarint(data, i, acc) == Read(acc + x, i + 1)
    ensures data[0] >= 128 ==> ReadVarint(data, i, acc) == ReadVarint(data[1..], i + 1, acc + x)
  {
    hide PutGroup, Pow2;
    assert PutGroup(acc, data[0], i) == acc + x by {
      GroupFits(acc, data[0], i);
    }
  }

  lemma GroupFits(acc: u64, b: byte, i: nat)
    requires acc + (b % 128) * Pow2(7 * i) < U64_LIMIT
    ensures PutGroup(acc, b, i) == acc + (b % 128) * Pow2(7 * i)
  {
    hide Pow2;
    KeptBelow(acc + (b % 128) * Pow2(7 * i));
  }

  lemma KeptBelow(n: nat)
    requires n < U64_LIMIT
    ensures n % U64_LIMIT == n
  {
  }

  lemma {:induction false} ReadVarintAt(v: nat, rest: Key, i: nat, acc: u64, q: nat)
    requires i <= 9 && q == v * Pow2(7 * i) && acc + q < U64_LIMIT
    ensures ReadVarint(Varint(v) + rest, i, acc) == Read(acc + q, i + |Varint(v)|)
    decreases v
  {
    hide ReadVarint, PutGroup;
    var data, p := Varint(v) + rest, Pow2(7 * i);
    SplitLowBits(v, p);
    var low, high := (v % 128) * p, (v / 128) * (128 * p);
    assert data[0] % 128 == v % 128;
    ReadVarintStep(data, i, acc, low);
    if v >= 128 {
      NextGroup(i);
      if i == 9 {
        NoRoomForMore(v, p);
        assert false;
      }
      assert data[1..] == Varint(v / 128) + rest;
      ReadVarintAt(v / 128, rest, i + 1, acc + low, high);
    }
  }

  /** A varint followed by anything reads back as itself and takes at most ten bytes. */
  lemma VarintRoundTrip(v: u64, rest: Key)
    ensures ReadVarint(Varint(v) + rest, 0, 0) == Read(v, |Varint(v)|)
    ensures 1 <= |Varint(v)| <= 10
  {
    assert Pow2(0) == 1;
    ReadVarintAt(v, rest, 0, 0, v);
    Pow2At64();
    VarintLength(v, 10);
  }

  // ---------------------------------------------------------------- id lists

  /** The bytes of the ids from position `i` on: each one as a varint of its distance to the
      id before it. */
  function IdListFrom(ids: seq<u64>, prev: u64): (r: Key)
    requires ids != [] ==> prev <= ids[0]
    requires StrictlySorted(ids)
  {
    if ids == [] then []
    else Varint(ids[0] - prev) + IdListFrom(ids[1..], ids[0])
  }

  function IdList(ids: seq<u64>): (r: Key)
    requires StrictlySorted(ids)
  {
    IdListFrom(ids, 0)
  }

  method EncodeIdList(ids: seq<u64>) returns (buf: Key)
    requires StrictlySorted(ids)
    ensures buf == IdList(ids)
  {
    hide Varint;
    buf := [];
    var prev: u64 := 0;
    assert ids[0..] == ids;
    for i := 0 to |ids|
      invariant i < |ids| ==> prev <= ids[i]
      invariant buf + IdListFrom(ids[i..], prev) == IdList(ids)
    {
      assert ids[i..][1..] == ids[i + 1..];
      ghost var before, tail := buf, IdListFrom(ids[i + 1..], ids[i]);
      buf := EncodeVarint(ids[i] - prev, buf);
      assert before + (Varint(ids[i] - prev) + tail) == buf + tail;
      prev := ids[i];
    }
    assert ids[|ids|..] == [];
  }

  /** `None` stands for an overflow of the running sum or of a shift. */
  type Decoded = Option<seq<u64>>

  function Ids(data: Key, prev: u64): Decoded
    decreases |data|
  {
    if data == [] then Some([])
    else
      match ReadVarint(data, 0, 0)
      case Fault => None
      case Truncated => Some([])
      case Read(delta, count) =>
        if prev + delta >= U64_LIMIT then None
        else Prepend([prev + delta], Ids(data[count..], prev + delta))
  }

  function Prepend(ids: seq<u64>, more: Decoded): Decoded {
    if more.None? then None else Some(ids + more.value)
  }

  lemma PrependTwice(ids: seq<u64>, id: u64, more: Decoded)
    ensures Prepend(ids, Prepend([id], more)) == Prepend(ids + [id], more)
    ensures Prepend([], more) == more
  {
    if more.Some? {
      assert ids + ([id] + more.value) == (ids + [id]) + more.value;
      assert [] + more.value == more.value;
    }
  }

  method DecodeIdList(data: Key) returns (r: Decoded)
    ensures r == Ids(data, 0)
  {
    hide ReadVarint, Ids;
    var ids: seq<u64>, pos, prev: u64 := [], 0, 0;
    PrependTwice([], 0, Ids(data, 0));
    assert data[0..] == data;
    while pos < |data|
      invariant pos <= |data|
      invariant Ids(data, 0) == Prepend(ids, Ids(data[pos..], prev))
    {
      IdsUnfold(data[pos..], prev);
      var v := DecodeVarint(data[pos..]);
      match v {
        case Fault => return None;
        case Truncated =>
          assert ids + [] == ids;
          return Some(ids);
        case Read(delta, count) =>
          assert data[pos..][count..] == data[pos + count..];
          pos := pos + count;
          if prev + delta >= U64_LIMIT {
            return None;
          }
          prev := prev + delta;
          PrependTwice(ids, prev, Ids(data[pos..], prev));
          ids := ids + [prev];
      }
    }
    EmptyIds(prev);
    assert ids + [] == ids && data[|data|..] == [];
    return Some(ids);
  }

  lemma EmptyIds(prev: u64)
    ensures Ids([], prev) == Some([])
  {
  }

  lemma IdsStep(head: Key, tail: Key, prev: u64, id: u64)
    requires head != [] && prev <= id && ReadVarint(head + tail, 0, 0) == Read(id - prev, |head|)
    ensures Ids(head + tail, prev) == Prepend([id], Ids(tail, id))
  {
    hide ReadVarint, Ids;
    assert (head + tail)[|head|..] == tail;
    IdsUnfold(head + tail, prev);
  }

  lemma IdsUnfold(data: Key, prev: u64)
    requires data != []
    ensures Ids(data, prev) ==
            match ReadVarint(data, 0, 0)
            case Fault => None
            case Truncated => Some([])
            case Read(delta, count) =>
              if prev + delta >= U64_LIMIT then None
              else Prepend([prev + delta], Ids(data[count..], prev + delta))
  {
    hide ReadVarint, Prepend;
  }

  lemma {:induction false} IdListFromRoundTrip(ids: seq<u64>, prev: u64)
    requires StrictlySorted(ids) && (ids != [] ==> prev <= ids[0])
    ensures Ids(IdListFrom(ids, prev), prev) == Some(ids)
  {
    hide Varint, ReadVarint, Ids;
    assert Ids([], prev) == Some([]) by { EmptyIds(prev); }
    if ids != [] {
      var head, tail := Varint(ids[0] - prev), IdListFrom(ids[1..], ids[0]);
      VarintRoundTrip(ids[0] - prev, tail);
      IdsStep(head, tail, prev, ids[0]);
      IdListFromRoundTrip(ids[1..], ids[0]);
      assert ids == [ids[0]] + ids[1..];
    }
  }

  /** Decoding gives back every strictly sorted list, with no overflow on the way. */
  lemma IdListRoundTrip(ids: seq<u64>)
    requires StrictlySorted(ids)
    ensures Ids(IdList(ids), 0) == Some(ids)
  {
    IdListFromRoundTrip(ids, 0);
  }

  // ---------------------------------------------------------------- the bytes of a varint

  /** Byte `i` holds the bits from 7i on; all but the last have the high bit, and no last byte is wasted. */
  lemma {:induction false} VarintBytes(v: nat, i: nat)
    requires i < |Varint(v)|
    ensures Varint(v)[i] % 128 == v / Pow2(7 * i) % 128
    ensures Varint(v)[i] >= 128 <==> i < |Varint(v)| - 1
    ensures |Varint(v)| > 1 ==> Varint(v)[|Varint(v)| - 1] > 0
  {
    if i == 0 {
      assert Pow2(0) == 1;
      VarintEnds(v);
    } else {
      VarintBytes(v / 128, i - 1);
      NextGroup(i - 1);
      QuotientTwice(v, 128, Pow2(7 * (i - 1)));
      VarintEnds(v);
    }
  }

  lemma {:induction false} VarintEnds(v: nat)
    ensures v > 0 ==> Varint(v)[|Varint(v)| - 1] > 0
  {
    if v >= 128 {
      VarintEnds(v / 128);
    }
  }

  lemma QuotientTwice(n: nat, a: nat, b: nat)
    requires a > 0 && b > 0
    ensures n / a / b == n / (a * b)
  {
    var q := n / a;
    var k := q / b;
    DivisionBounds(n, a, q);
    DivisionBounds(q, b, k);
    MultiplesOrder(a, b * k, q);
    MultiplesOrder(a, q + 1, b * k + b);
    Associate(a, b, k);
    QuotientIs(n, a * b, k);
  }

  lemma Associate(a: nat, b: nat, k: nat)
    ensures a * (b * k) == (a * b) * k && a * (b * k + b) == (a * b) * k + a * b
  {
  }

  /** The number that 7-bit groups make, the first the lowest, from group `i` on. */
  function Groups(data: Key, i: nat): nat {
    if data == [] then 0 else (data[0] % 128) * Pow2(7 * i) + Groups(data[1..], i + 1)
  }

  /** What is read when byte `k` is the first without the high bit: its groups, cut to 64 bits; beyond ten bytes
      the shift goes too far. */
  lemma ReadVarintWritten(data: Key, k: nat)
    requires k < |data| && data[k] < 128 && forall j :: 0 <= j < k ==> data[j] >= 128
    ensures ReadVarint(data, 0, 0) ==
            if k < 10 then Read(Groups(data[..k + 1], 0) % U64_LIMIT, k + 1) else Fault
  {
    ReadGroups(data, k, 0, 0);
  }

  lemma {:induction false} ReadGroups(data: Key, k: nat, i: nat, acc: u64)
    requires k < |data| && data[k] < 128 && forall j :: 0 <= j < k ==> data[j] >= 128
    ensures ReadVarint(data, i, acc) ==
            if i + k < 10 then Read((acc + Groups(data[..k + 1], i)) % U64_LIMIT, i + k + 1) else Fault
    decreases k
  {
    hide Pow2;
    if 7 * i < 64 {
      var group := (data[0] % 128) * Pow2(7 * i);
      var next := PutGroup(acc, data[0], i);
      assert data[..k + 1][1..] == data[1..][..k];
      SumWraps(acc + group, if k == 0 then 0 else Groups(data[1..][..k], i + 1));
      if k > 0 {
        ReadGroups(data[1..], k - 1, i + 1, next);
      }
    }
  }

  lemma SumWraps(a: nat, b: nat)
    ensures (a % U64_LIMIT + b) % U64_LIMIT == (a + b) % U64_LIMIT
  {
  }

  /** Without such a byte the input is cut short, or has gone too far already. */
  lemma {:induction false} UnfinishedVarint(data: Key, i: nat, acc: u64)
    requires i <= 10 && forall j :: 0 <= j < |data| ==> data[j] >= 128
    ensures ReadVarint(data, i, acc) == if i + |data| <= 10 then Truncated else Fault
    decreases |data|
  {
    hide PutGroup;
    if data != [] && i < 10 {
      UnfinishedVarint(data[1..], i + 1, PutGroup(acc, data[0], i));
    }
  }

  // ---------------------------------------------------------------- sorted list updates

  /** `slice::binary_search` on a strictly sorted list: where `id` is, or where it belongs. */
  method BinarySearch(ids: seq<u64>, id: u64) returns (found: bool, pos: nat)
    requires StrictlySorted(ids)
    ensures pos <= |ids|
    ensures found <==> id in ids
    ensures found ==> pos < |ids| && ids[pos] == id
    ensures forall i :: 0 <= i < pos ==> ids[i] < id
    ensures forall i :: pos <= i < |ids| ==> id <= ids[i]
  {
    var low, high := 0, |ids|;
    while low < high
      invariant 0 <= low <= high <= |ids|
      invariant forall i :: 0 <= i < low ==> ids[i] < id
      invariant forall i :: high <= i < |ids| ==> id < ids[i]
    {
      var mid := (low + high) / 2;
      if ids[mid] < id {
        low := mid + 1;
      } else if id < ids[mid] {
        high := mid;
      } else {
        return true, mid;
      }
    }
    return false, low;
  }

  method InsertIntoSorted(ids: seq<u64>, id: u64) returns (out: seq<u64>)
    requires StrictlySorted(ids)
    ensures StrictlySorted(out) && Elems(out) == Elems(ids) + {id}
  {
    hide StrictlySorted;
    var found, pos := BinarySearch(ids, id);
    if found {
      assert id in Elems(ids);
      out := ids;
    } else {
      out := ids[..pos] + [id] + ids[pos..];
      InsertedSorted(ids, id, pos);
      InsertedElems(ids, id, pos);
    }
  }

  lemma InsertedSorted(ids: seq<u64>, id: u64, pos: nat)
    requires StrictlySorted(ids) && pos <= |ids| && id !in ids
    requires (forall i :: 0 <= i < pos ==> ids[i] < id) && (forall i :: pos <= i < |ids| ==> id <= ids[i])
    ensures StrictlySorted(ids[..pos] + [id] + ids[pos..])
  {
  }

  lemma InsertedElems(ids: seq<u64>, id: u64, pos: nat)
    requires pos <= |ids|
    ensures Elems(ids[..pos] + [id] + ids[pos..]) == Elems(ids) + {id}
  {
    hide Elems;
    assert ids == ids[..pos] + ids[pos..];
    ElemsConcat(ids[..pos], ids[pos..]);
    ElemsConcat(ids[..pos], [id]);
    ElemsConcat(ids[..pos] + [id], ids[pos..]);
    ElemsSingle(id);
  }

  method RemoveFromSorted(ids: seq<u64>, id: u64) returns (removed: bool, out: seq<u64>)
    requires StrictlySorted(ids)
    ensures removed <==> id in ids
    ensures StrictlySorted(out) && Elems(out) == Elems(ids) - {id}
  {
    var found, pos := BinarySearch(ids, id);
    if !found {
      return false, ids;
    }
    removed, out := true, ids[..pos] + ids[pos + 1..];
    assert ids == ids[..pos] + [id] + ids[pos + 1..];
    ElemsConcat(ids[..pos], ids[pos + 1..]);
    ElemsConcat(ids[..pos] + [id], ids[pos + 1..]);
    ElemsConcat(ids[..pos], [id]);
    ElemsSingle(id);
    assert id !in Elems(out);
  }
}
