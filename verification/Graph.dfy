/** The property multigraph that the tables represent, and the neighbour sets it defines. */
module Graph {
  import opened Prelude
  import opened Bytes

  // ---------------------------------------------------------------- names

  /** Labels, relationship types and property keys, as the bytes of their text. */
  type Name = seq<byte>

  predicate NameByte(b: byte) {
    48 <= b <= 57 || 65 <= b <= 90 || b == 95 || 97 <= b <= 122
  }

  /** `validate_name` (src/types.rs:1266): non-empty and all of `[A-Za-z0-9_]`. */
  predicate ValidName(name: Name) {
    name != [] && forall i :: 0 <= i < |name| ==> NameByte(name[i])
  }

  /** The bytes of a name are the ASCII letters, the digits and the underscore. */
  lemma NameBytesAre(b: byte)
    ensures var c := b as char;
            NameByte(b) <==> 'A' <= c <= 'Z' || 'a' <= c <= 'z' || '0' <= c <= '9' || c == '_'
  {
  }

  predicate NulFree(name: Name) {
    forall i :: 0 <= i < |name| ==> name[i] != 0
  }

  // ---------------------------------------------------------------- entities

  /** Property values. Only equality, size and the difference between Null and the rest matter. */
  datatype Value = Null | Bool(b: bool) | I64(n: int) | Text(s: seq<byte>) | List(items: seq<Value>)

  type Props = map<Name, Value>

  datatype NodeRecord = NodeRecord(labels: seq<Name>, props: Props)

  /** One stored relationship. Parallel edges differ in `seq` only. */
  datatype Edge = Edge(src: u64, dst: u64, lbl: Name, num: u64)

  datatype Direction = Outgoing | Incoming | Both

  // ---------------------------------------------------------------- neighbours

  /** The endpoint an adjacency table is keyed on: the source in `adj_out`, the target in `adj_in`. */
  function Near(e: Edge, out: bool): u64 {
    if out then e.src else e.dst
  }

  function Far(e: Edge, out: bool): u64 {
    if out then e.dst else e.src
  }

  /** The far ends of the edges of one type at a node. */
  function FarEnds(edges: set<Edge>, id: u64, lbl: Name, out: bool): set<u64> {
    set e | e in edges && Near(e, out) == id && e.lbl == lbl :: Far(e, out)
  }

  /** The edge types present at a node. */
  function LabelsAt(edges: set<Edge>, id: u64, out: bool): set<Name> {
    set e | e in edges && Near(e, out) == id :: e.lbl
  }

  /** All parallel edges of one type from `src` to `dst`. */
  function Parallel(edges: set<Edge>, src: u64, dst: u64, lbl: Name): set<Edge> {
    set e | e in edges && e.src == src && e.dst == dst && e.lbl == lbl
  }

  function ParallelSeqs(edges: set<Edge>, src: u64, dst: u64, lbl: Name): set<u64> {
    set e | e in Parallel(edges, src, dst, lbl) :: e.num
  }

  function OfType(edges: set<Edge>, lbl: Name): set<Edge> {
    set e | e in edges && e.lbl == lbl
  }

  /** Sequence numbers are handed out by one counter, so no two edges share one. */
  ghost predicate SeqsUnique(edges: set<Edge>) {
    forall e, f :: e in edges && f in edges && e.num == f.num ==> e == f
  }

  ghost predicate SeqsBelow(edges: set<Edge>, next: nat) {
    forall e :: e in edges ==> e.num < next
  }

  /** A counter of edges fits in 64 bits: there are at most as many edges as numbers handed out. */
  lemma {:induction false} EdgeCountBound(edges: set<Edge>, next: nat)
    requires SeqsUnique(edges) && SeqsBelow(edges, next)
    ensures |edges| <= next
    decreases next
  {
    if next == 0 {
      assert edges == {};
    } else if exists e :: e in edges && e.num == next - 1 {
      var e :| e in edges && e.num == next - 1;
      EdgeCountBound(edges - {e}, next - 1);
    } else {
      EdgeCountBound(edges, next - 1);
    }
  }

  /** The ids of the nodes that carry a label. */
  function NodesWith(nodes: map<u64, NodeRecord>, lbl: Name): set<u64> {
    set id | id in nodes && lbl in nodes[id].labels
  }

  lemma {:induction false} NodeCountBound(ids: set<u64>, next: nat)
    requires forall id :: id in ids ==> id < next
    ensures |ids| <= next
    decreases next
  {
    if next == 0 {
      assert ids == {};
    } else {
      NodeCountBound(ids - {next - 1}, next - 1);
    }
  }
}
