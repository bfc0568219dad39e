/** Secondary indexes (src/storage/index.rs): table names, composite keys, maintenance, lookup. */
module Index {
  import opened Prelude
  import opened Bytes
  import opened Graph
  import opened Db
  import opened Patterns

  // ---------------------------------------------------------------- table names

  /** `node_idx$`. */
  const TABLE_PREFIX: Name := [110, 111, 100, 101, 95, 105, 100, 120, 36]

  /** `$p1$p2...`. */
  function Columns(props: seq<Name>): Name {
    if props == [] then [] else [36] + props[0] + Columns(props[1..])
  }

  /** `node_idx$<label>$<prop1>$...$<propN>`. */
  function TableName(d: IndexDef): Name {
    TABLE_PREFIX + d.lbl + Columns(d.props)
  }

  /** In letters: `node_idx$`, and a `$` before each column. */
  lemma TableNameText(lbl: Name, p: Name, q: Name)
    ensures |TABLE_PREFIX| == 9 && forall i :: 0 <= i < 9 ==> TABLE_PREFIX[i] as char == "node_idx$"[i]
    ensures TableName(IndexDef(lbl, [p, q])) == TABLE_PREFIX + lbl + ['$' as int] + p + ['$' as int] + q
  {
    assert [p, q][1..] == [q] && [q][1..] == [];
    assert Columns([q]) == [36] + q;
  }

  predicate DefOk(d: IndexDef) {
    ValidName(d.lbl) && d.props != [] && NoDup(d.props) && forall i :: 0 <= i < |d.props| ==> ValidName(d.props[i])
  }

  /** Label and properties are names, repeats or not. */
  predicate NamesValid(d: IndexDef) {
    ValidName(d.lbl) && d.props != [] && forall i :: 0 <= i < |d.props| ==> ValidName(d.props[i])
  }

  /** The checks of `composite_index_table_name`, in order. */
  function CheckDef(d: IndexDef): Option<Error> {
    if d.props == [] then Some(InvalidIndexDefinition)
    else if !ValidName(d.lbl) then Some(InvalidName)
    else CheckColumns(d.props, {})
  }

  function CheckColumns(props: seq<Name>, seen: set<Name>): Option<Error> {
    if props == [] then None
    else if !ValidName(props[0]) then Some(InvalidName)
    else if props[0] in seen then Some(InvalidIndexDefinition)
    else CheckColumns(props[1..], seen + {props[0]})
  }

  lemma {:induction false} CheckColumnsSpec(props: seq<Name>, seen: set<Name>)
    ensures CheckColumns(props, seen).None? <==>
            NoDup(props) && forall i :: 0 <= i < |props| ==> ValidName(props[i]) && props[i] !in seen
  {
    hide ValidName;
    if props != [] {
      CheckColumnsSpec(props[1..], seen + {props[0]});
      assert props == [props[0]] + props[1..];
      assert NoDup(props) <==> NoDup(props[1..]) && props[0] !in props[1..] by {
        assert forall i :: 0 < i < |props| ==> props[i] == props[1..][i - 1];
      }
      assert forall i :: 0 <= i < |props[1..]| ==> props[1..][i] == props[i + 1];
    }
  }

  /** An index is accepted exactly when its label and properties are valid names without repeats. */
  lemma CheckDefExact(d: IndexDef)
    ensures CheckDef(d).None? <==> DefOk(d)
  {
    hide ValidName;
    CheckColumnsSpec(d.props, {});
  }

  /** The columns before the `i`-th pass. */
  predicate PassUpTo(props: seq<Name>, i: nat)
    requires i <= |props|
  {
    NoDup(props[..i]) && forall j :: 0 <= j < i ==> ValidName(props[j])
  }

  predicate FirstInvalid(props: seq<Name>, i: nat) {
    i < |props| && PassUpTo(props, i) && !ValidName(props[i])
  }

  predicate FirstRepeated(props: seq<Name>, i: nat) {
    i < |props| && PassUpTo(props, i) && ValidName(props[i]) && props[i] in props[..i]
  }

  /** Which error comes: the first column that is invalid or repeated decides, after the label. */
  lemma CheckDefErrors(d: IndexDef)
    ensures CheckDef(d) == Some(InvalidName) <==>
            d.props != [] && (!ValidName(d.lbl) || exists i :: FirstInvalid(d.props, i))
    ensures CheckDef(d) == Some(InvalidIndexDefinition) <==>
            d.props == [] || (ValidName(d.lbl) && exists i :: FirstRepeated(d.props, i))
    ensures CheckDef(d).Some? ==> CheckDef(d).value == InvalidName || CheckDef(d).value == InvalidIndexDefinition
  {
    hide ValidName, NoDup;
    CheckColumnsSpec(d.props, {});
    if CheckColumns(d.props, {}).Some? {
      var n := FirstBad(d.props, {});
      assert FirstInvalid(d.props, n) || FirstRepeated(d.props, n);
      forall i | 0 <= i < |d.props| && PassUpTo(d.props, i) && (!ValidName(d.props[i]) || d.props[i] in d.props[..i])
        ensures i == n
      {
        OneFirstBad(d.props, i, n);
        OneFirstBad(d.props, n, i);
      }
    } else {
      forall i | 0 <= i < |d.props| ensures d.props[i] !in d.props[..i] {
        RepeatIn(d.props, i);
      }
    }
  }

  lemma RepeatIn(props: seq<Name>, i: nat)
    requires i < |props| && NoDup(props)
    ensures props[i] !in props[..i]
  {
  }

  lemma OneFirstBad(props: seq<Name>, i: nat, n: nat)
    requires i < |props| && n < |props| && PassUpTo(props, n)
    requires !ValidName(props[i]) || props[i] in props[..i]
    ensures n <= i
  {
    hide ValidName;
    if i < n {
      assert props[..n][..i] == props[..i] && props[..n][i] == props[i];
      RepeatIn(props[..n], i);
      assert false;
    }
  }

  lemma {:induction false} FirstBad(props: seq<Name>, seen: set<Name>) returns (n: nat)
    requires CheckColumns(props, seen).Some?
    ensures n < |props| && PassUpTo(props, n) && Elems(props[..n]) !! seen
    ensures CheckColumns(props, seen) == Some(if ValidName(props[n]) then InvalidIndexDefinition else InvalidName)
    ensures ValidName(props[n]) ==> props[n] in props[..n] || props[n] in seen
  {
    hide ValidName;
    if !ValidName(props[0]) || props[0] in seen {
      return 0;
    }
    var k := FirstBad(props[1..], seen + {props[0]});
    n := k + 1;
    assert props[..n] == [props[0]] + props[1..][..k];
    assert forall j :: 0 < j < n ==> props[j] == props[1..][j - 1];
    assert props[0] !in props[1..][..k] by {
      assert props[0] !in Elems(props[1..][..k]);
    }
    ElemsConcat([props[0]], props[1..][..k]);
    ElemsSingle(props[0]);
  }

  /** `parse_composite_table_name`. */
  function ParseTableName(name: Name, lbl: Name): Option<seq<Name>> {
    if !(TABLE_PREFIX <= name) then None
    else
      var rest := name[|TABLE_PREFIX|..];
      if lbl + [36] <= rest then Some(Split(rest[|lbl| + 1..], 36)) else None
  }

  /** The index a table name stands for, whatever its label. */
  function DefOfName(name: Name): IndexDef {
    if |name| < |TABLE_PREFIX| then IndexDef([], [])
    else
      var rest := name[|TABLE_PREFIX|..];
      match First(rest, 36)
      case None => IndexDef([], [])
      case Some(i) => IndexDef(rest[..i], Split(rest[i + 1..], 36))
  }

  lemma NameHasNoDollar(name: Name)
    requires ValidName(name)
    ensures forall i :: 0 <= i < |name| ==> name[i] != 36
  {
    forall i | 0 <= i < |name| ensures name[i] != 36 {
      assert NameByte(name[i]);
    }
  }

  lemma {:induction false} SplitColumns(props: seq<Name>)
    requires props != [] && forall i :: 0 <= i < |props| ==> ValidName(props[i])
    ensures Columns(props) != [] && Columns(props)[0] == 36 && Split(Columns(props)[1..], 36) == props
    decreases |props|
  {
    hide ValidName, Split;
    var p, rest := props[0], props[1..];
    NameHasNoDollar(p);
    assert props == [p] + rest;
    assert Columns(props)[1..] == p + Columns(rest);
    if rest == [] {
      assert p + [] == p;
      SplitOne(p, 36, []);
    } else {
      SplitColumns(rest);
      var tail := Columns(rest)[1..];
      assert Columns(rest) == [36] + tail;
      assert p + ([36] + tail) == p + [36] + tail;
      SplitOne(p, 36, tail);
    }
  }

  /** A table name stands for one index only, and parsing it for a label gives back the properties
      for that label and nothing for any other: `$` occurs in no name. */
  lemma TableNameRoundTrip(d: IndexDef, lbl: Name)
    requires NamesValid(d) && ValidName(lbl)
    ensures DefOfName(TableName(d)) == d
    ensures ParseTableName(TableName(d), lbl) == if lbl == d.lbl then Some(d.props) else None
  {
    hide ValidName, Columns, Split, First, NoDup;
    SplitColumns(d.props);
    var name, rest, tail := TableName(d), d.lbl + Columns(d.props), Columns(d.props)[1..];
    assert name == TABLE_PREFIX + rest;
    assert name[|TABLE_PREFIX|..] == rest && name[..|TABLE_PREFIX|] == TABLE_PREFIX;
    NameHasNoDollar(d.lbl);
    assert rest == d.lbl + [36] + tail;
    FirstSpec(d.lbl, 36, tail);
    assert rest[..|d.lbl|] == d.lbl && rest[|d.lbl| + 1..] == tail;
    LabelBeforeDollar(d.lbl, tail, lbl);
  }

  lemma LabelBeforeDollar(lbl: Name, tail: Key, other: Name)
    requires ValidName(lbl) && ValidName(other)
    ensures other + [36] <= lbl + [36] + tail <==> other == lbl
  {
    hide ValidName, First;
    var rest := lbl + [36] + tail;
    NameHasNoDollar(lbl);
    NameHasNoDollar(other);
    FirstSpec(lbl, 36, tail);
    if other + [36] <= rest {
      assert rest[..|other| + 1] == other + [36];
      assert rest == other + [36] + rest[|other| + 1..];
      FirstSpec(other, 36, rest[|other| + 1..]);
      assert other == rest[..|other|] && lbl == rest[..|lbl|];
    }
    if other == lbl {
      assert rest[..|lbl| + 1] == lbl + [36];
    }
  }

  /** Distinct indexes have distinct table names, underscores in names or not. */
  lemma TableNameInjective(a: IndexDef, b: IndexDef)
    requires NamesValid(a) && NamesValid(b)
    ensures TableName(a) == TableName(b) <==> a == b
  {
    hide TableName, DefOfName;
    TableNameRoundTrip(a, a.lbl);
    TableNameRoundTrip(b, b.lbl);
  }

  lemma AcceptedNamesValid(d: IndexDef)
    requires DefOk(d)
    ensures NamesValid(d)
  {
  }

  /** SQLite compares table names without regard to the case of ASCII letters. */
  function FoldNames(names: seq<Name>): (r: seq<Name>)
    ensures |r| == |names| && forall i :: 0 <= i < |r| ==> r[i] == FoldName(names[i])
  {
    seq(|names|, i requires 0 <= i < |names| => FoldName(names[i]))
  }

  function FoldDef(d: IndexDef): IndexDef {
    IndexDef(FoldName(d.lbl), FoldNames(d.props))
  }

  lemma FoldConcat(a: Name, b: Name)
    ensures FoldName(a + b) == FoldName(a) + FoldName(b)
  {
  }

  lemma {:induction false} FoldColumns(props: seq<Name>)
    ensures FoldName(Columns(props)) == Columns(FoldNames(props))
  {
    hide FoldName;
    if props == [] {
      assert FoldName([]) == [];
    } else {
      FoldColumns(props[1..]);
      FoldConcat([36] + props[0], Columns(props[1..]));
      FoldConcat([36], props[0]);
      assert FoldName([36]) == [36];
      assert FoldNames(props)[1..] == FoldNames(props[1..]);
    }
  }

  lemma FoldTableName(d: IndexDef)
    ensures FoldName(TableName(d)) == TableName(FoldDef(d))
  {
    hide FoldName, FoldNames, Columns;
    FoldConcat(TABLE_PREFIX + d.lbl, Columns(d.props));
    FoldConcat(TABLE_PREFIX, d.lbl);
    FoldColumns(d.props);
    assert FoldName(TABLE_PREFIX) == TABLE_PREFIX;
  }

  lemma FoldedNamesValid(d: IndexDef)
    requires NamesValid(d)
    ensures NamesValid(FoldDef(d))
  {
    forall name: Name | ValidName(name) ensures ValidName(FoldName(name)) {
      forall i | 0 <= i < |name| ensures NameByte(FoldName(name)[i]) {
        assert NameByte(name[i]);
      }
    }
  }

  /** Two indexes are one table to SQLite exactly when label and properties differ at most in case. */
  lemma SharedTableExact(a: IndexDef, b: IndexDef)
    requires NamesValid(a) && NamesValid(b)
    ensures FoldName(TableName(a)) == FoldName(TableName(b)) <==> FoldDef(a) == FoldDef(b)
  {
    hide TableName, FoldName, FoldDef, NamesValid;
    FoldTableName(a);
    FoldTableName(b);
    FoldedNamesValid(a);
    FoldedNamesValid(b);
    TableNameInjective(FoldDef(a), FoldDef(b));
  }

  /** No two indexes are one table to SQLite. */
  ghost predicate TablesApart(defs: set<IndexDef>) {
    forall a, b :: a in defs && b in defs && FoldDef(a) == FoldDef(b) ==> a == b
  }

  /** The index whose table SQLite finds under the name of `d`. */
  predicate Found(defs: set<IndexDef>, d: IndexDef, e: IndexDef) {
    e in defs && FoldDef(e) == FoldDef(d)
  }

  // ---------------------------------------------------------------- composite keys

  /** No encoded value is the beginning of another one's encoding: what is asked of MessagePack. */
  ghost predicate PrefixFree(encode: Value -> Key) {
    forall v, w :: encode(v) <= encode(w) ==> v == w
  }

  function EncodeAll(encode: Value -> Key, values: seq<Value>): Key {
    if values == [] then [] else encode(values[0]) + EncodeAll(encode, values[1..])
  }

  /** `[v1]...[vN][node id: 8 bytes]`. */
  function CompositeKey(encode: Value -> Key, values: seq<Value>, id: u64): Key {
    EncodeAll(encode, values) + Word(id)
  }

  lemma {:induction false} EncodeAllMore(encode: Value -> Key, values: seq<Value>, v: Value)
    ensures EncodeAll(encode, values + [v]) == EncodeAll(encode, values) + encode(v)
  {
    if values == [] {
      assert values + [v] == [v] && [v][1..] == [];
    } else {
      assert (values + [v])[1..] == values[1..] + [v];
      EncodeAllMore(encode, values[1..], v);
    }
  }

  /** `composite_index_key`. */
  method CompositeIndexKey(conn: Connection, values: seq<Value>, id: u64) returns (key: Key)
    ensures key == CompositeKey(conn.encode, values, id)
  {
    key := [];
    for i := 0 to |values|
      invariant key == EncodeAll(conn.encode, values[..i])
    {
      TakeOneMore(values, i, values[i]);
      EncodeAllMore(conn.encode, values[..i], values[i]);
      key := key + conn.encode(values[i]);
    }
    assert values[..|values|] == values;
    key := key + Word(id);
  }

  /** The trailing id can be read off a key. */
  lemma KeyShowsId(encode: Value -> Key, values: seq<Value>, id: u64)
    ensures var key := CompositeKey(encode, values, id);
            |key| >= 8 && FromWord(key[|key| - 8..]) == id
  {
    var key := CompositeKey(encode, values, id);
    WordRoundTrip(id);
    assert key[|key| - 8..] == Word(id);
  }

  /** With prefix-free values, a key extends the encoding of some leading values exactly when its
      own leading values are those; the id behind the last value never takes part. */
  lemma {:induction false} KeyPrefixExact(encode: Value -> Key, values: seq<Value>, id: u64, leading: seq<Value>)
    requires PrefixFree(encode) && |leading| <= |values|
    ensures EncodeAll(encode, leading) <= CompositeKey(encode, values, id) <==> leading == values[..|leading|]
    decreases |leading|
  {
    var key := CompositeKey(encode, values, id);
    if leading == [] {
    } else {
      var a, b := encode(leading[0]), encode(values[0]);
      var tail := CompositeKey(encode, values[1..], id);
      assert key == b + tail;
      KeyPrefixExact(encode, values[1..], id, leading[1..]);
      if EncodeAll(encode, leading) <= key {
        SameHead(a, EncodeAll(encode, leading[1..]), b, tail);
        assert leading[0] == values[0];
      }
      assert leading == [leading[0]] + leading[1..];
      assert values[..|leading|] == [values[0]] + values[1..][..|leading| - 1];
      if leading == values[..|leading|] {
        assert leading[0] == values[0] && leading[1..] == values[1..][..|leading[1..]|];
        assert EncodeAll(encode, leading[1..]) <= tail;
      }
    }
  }

  /** Of two texts that begin alike one head begins the other; if they are equal the rest goes on alike. */
  lemma SameHead(a: Key, x: Key, b: Key, y: Key)
    requires a + x <= b + y
    ensures (a <= b || b <= a) && (a == b ==> x <= y)
  {
    assert (b + y)[..|a|] == a && (b + y)[..|b|] == b;
    assert |a| <= |b| ==> b[..|a|] == (b + y)[..|a|];
    assert |b| <= |a| ==> a[..|b|] == (b + y)[..|b|];
    assert (a + x)[|a|..] == x && (b + y)[|b|..] == y;
  }

  // ---------------------------------------------------------------- what an index holds

  predicate Covers(props: Props, cols: seq<Name>) {
    forall i :: 0 <= i < |cols| ==> cols[i] in props
  }

  function Values(props: Props, cols: seq<Name>): seq<Value>
    requires Covers(props, cols)
  {
    seq(|cols|, i requires 0 <= i < |cols| => props[cols[i]])
  }

  /** The entry of one node in an index, or none if a covered property is missing. */
  function Entry(encode: Value -> Key, props: Props, cols: seq<Name>, id: u64): set<Key> {
    if Covers(props, cols) then {CompositeKey(encode, Values(props, cols), id)} else {}
  }

  ghost predicate Indexed(nodes: map<u64, NodeRecord>, d: IndexDef, id: u64) {
    id in nodes && d.lbl in nodes[id].labels && Covers(nodes[id].props, d.props)
  }

  /** Exactly the entries of the nodes that carry the label and all covered properties. */
  ghost function IndexKeys(encode: Value -> Key, nodes: map<u64, NodeRecord>, d: IndexDef): set<Key> {
    set id | id in nodes && Indexed(nodes, d, id) :: CompositeKey(encode, Values(nodes[id].props, d.props), id)
  }

  type Tables = map<Name, set<Key>>

  predicate NameOk(name: Name) {
    DefOk(DefOfName(name)) && TableName(DefOfName(name)) == name
  }

  ghost predicate HoldsIndex(tables: Tables, encode: Value -> Key, nodes: map<u64, NodeRecord>, d: IndexDef) {
    DefOk(d) && TableName(d) in tables && tables[TableName(d)] == IndexKeys(encode, nodes, d)
  }

  /** The index tables are those of `defs`, each with exactly the entries it should have. */
  ghost predicate IndexesOk(tables: Tables, encode: Value -> Key, nodes: map<u64, NodeRecord>, defs: set<IndexDef>) {
    (forall d :: d in defs ==> HoldsIndex(tables, encode, nodes, d)) &&
    (forall name :: name in tables ==> NameOk(name) && DefOfName(name) in defs) &&
    TablesApart(defs)
  }

  ghost predicate NamesOk(tables: Tables) {
    forall name :: name in tables ==> NameOk(name)
  }

  // ---------------------------------------------------------------- maintenance

  /** `collect_values`. */
  method CollectValues(props: Props, cols: seq<Name>) returns (r: Option<seq<Value>>)
    ensures r == if Covers(props, cols) then Some(Values(props, cols)) else None
  {
    var out: seq<Value> := [];
    for i := 0 to |cols|
      invariant |out| == i && forall j :: 0 <= j < i ==> cols[j] in props && out[j] == props[cols[j]]
    {
      if cols[i] !in props {
        return None;
      }
      out := out + [props[cols[i]]];
    }
    assert out == Values(props, cols);
    return Some(out);
  }

  function OldEntry(encode: Value -> Key, before: Option<Props>, cols: seq<Name>, id: u64): set<Key> {
    if before.Some? then Entry(encode, before.value, cols, id) else {}
  }

  /** One table after an update: the old entry out, the new one in. */
  function Touch(keys: set<Key>, encode: Value -> Key, cols: seq<Name>, id: u64, before: Option<Props>,
                 after: Props): set<Key> {
    keys - OldEntry(encode, before, cols, id) + Entry(encode, after, cols, id)
  }

  /** All tables after an update for the given labels. */
  function TouchTables(tables: Tables, encode: Value -> Key, labels: set<Name>, id: u64, before: Option<Props>,
                       after: Props): Tables {
    map name | name in tables ::
      if DefOfName(name).lbl in labels then Touch(tables[name], encode, DefOfName(name).props, id, before, after)
      else tables[name]
  }

  /** `list_indexes_for_label`: the column lists of the label's indexes, in no particular order. */
  method ListIndexesForLabel(conn: Connection, lbl: Name) returns (r: seq<seq<Name>>)
    requires NamesOk(conn.indexTables)
    ensures forall cols :: cols in r <==>
              ValidName(lbl) && TableName(IndexDef(lbl, cols)) in conn.indexTables && DefOk(IndexDef(lbl, cols))
    ensures NoDup(r)
  {
    hide ValidName, TableName, DefOfName, ParseTableName;
    r := [];
    if !ValidName(lbl) {
      return;
    }
    var left := conn.indexTables.Keys;
    while left != {}
      invariant left <= conn.indexTables.Keys && NoDup(r)
      invariant forall cols :: cols in r <==>
                  TableName(IndexDef(lbl, cols)) in conn.indexTables.Keys - left && DefOk(IndexDef(lbl, cols))
      decreases left
    {
      var name :| name in left;
      ghost var d := DefOfName(name);
      TableNameRoundTrip(d, lbl);
      ghost var before, rest := r, left;
      match ParseTableName(name, lbl) {
        case None =>
        case Some(cols) => r := r + [cols];
      }
      left := left - {name};
      forall cols | DefOk(IndexDef(lbl, cols))
        ensures TableName(IndexDef(lbl, cols)) == name <==> d == IndexDef(lbl, cols)
      {
        TableNameInjective(IndexDef(lbl, cols), d);
      }
    }
  }

  /** The tables named, touched. */
  function TouchNamed(tables: Tables, encode: Value -> Key, names: set<Name>, id: u64, before: Option<Props>,
                      after: Props): Tables {
    map name | name in tables ::
      if name in names then Touch(tables[name], encode, DefOfName(name).props, id, before, after) else tables[name]
  }

  lemma TouchOneMore(tables: Tables, encode: Value -> Key, names: set<Name>, id: u64, before: Option<Props>,
                     after: Props, name: Name)
    requires name in tables && name !in names
    ensures var t := TouchNamed(tables, encode, names, id, before, after);
            name in t && t[name] == tables[name] &&
            TouchNamed(tables, encode, names + {name}, id, before, after) ==
            t[name := Touch(tables[name], encode, DefOfName(name).props, id, before, after)]
  {
    hide Touch, DefOfName;
  }

  function TablesOf(lbl: Name, infos: seq<seq<Name>>, i: nat): set<Name>
    requires i <= |infos|
  {
    set j | 0 <= j < i :: TableName(IndexDef(lbl, infos[j]))
  }

  /** The put and delete for one index of `update_indexes_for_label`. */
  method TouchTable(conn: Connection, lbl: Name, cols: seq<Name>, id: u64, before: Option<Props>, after: Props)
    requires DefOk(IndexDef(lbl, cols)) && TableName(IndexDef(lbl, cols)) in conn.indexTables
    modifies conn`indexTables
    ensures var name := TableName(IndexDef(lbl, cols));
            conn.indexTables ==
                old(conn.indexTables)[name := Touch(old(conn.indexTables)[name], conn.encode, cols, id, before, after)]
  {
    hide TableName, CompositeKey, Values, Covers;
    var name := TableName(IndexDef(lbl, cols));
    ghost var start := conn.indexTables[name];
    // The entry of the properties as they were goes,
    if before.Some? {
      var oldValues := CollectValues(before.value, cols);
      if oldValues.Some? {
        var oldKey := CompositeIndexKey(conn, oldValues.value, id);
        conn.indexTables := conn.indexTables[name := conn.indexTables[name] - {oldKey}];
      }
    }
    assert conn.indexTables[name] == start - OldEntry(conn.encode, before, cols, id);
    // and that of the properties as they are comes.
    var newValues := CollectValues(after, cols);
    if newValues.Some? {
      var newKey := CompositeIndexKey(conn, newValues.value, id);
      conn.indexTables := conn.indexTables[name := conn.indexTables[name] + {newKey}];
    }
    assert conn.indexTables[name] == Touch(start, conn.encode, cols, id, before, after);
  }

  lemma NameIsOk(d: IndexDef)
    requires DefOk(d)
    ensures NameOk(TableName(d)) && DefOfName(TableName(d)) == d
  {
    hide TableName, DefOfName;
    TableNameRoundTrip(d, d.lbl);
  }

  lemma DistinctTables(lbl: Name, infos: seq<seq<Name>>, i: nat)
    requires i < |infos| && NoDup(infos) && forall j :: 0 <= j <= i ==> DefOk(IndexDef(lbl, infos[j]))
    ensures TableName(IndexDef(lbl, infos[i])) !in TablesOf(lbl, infos, i)
    ensures TablesOf(lbl, infos, i + 1) == TablesOf(lbl, infos, i) + {TableName(IndexDef(lbl, infos[i]))}
  {
    hide TableName, DefOk;
    forall j | 0 <= j < i ensures TableName(IndexDef(lbl, infos[j])) != TableName(IndexDef(lbl, infos[i])) {
      AcceptedNamesValid(IndexDef(lbl, infos[j]));
      AcceptedNamesValid(IndexDef(lbl, infos[i]));
      TableNameInjective(IndexDef(lbl, infos[j]), IndexDef(lbl, infos[i]));
    }
  }

  lemma AllTablesOf(tables: Tables, lbl: Name, infos: seq<seq<Name>>, encode: Value -> Key, id: u64,
                    before: Option<Props>, after: Props)
    requires NamesOk(tables)
    requires forall cols :: cols in infos <==>
               ValidName(lbl) && TableName(IndexDef(lbl, cols)) in tables && DefOk(IndexDef(lbl, cols))
    ensures TouchNamed(tables, encode, TablesOf(lbl, infos, |infos|), id, before, after) ==
            TouchTables(tables, encode, {lbl}, id, before, after)
  {
    hide TableName, DefOfName, Touch, ValidName;
    forall name | name in tables ensures name in TablesOf(lbl, infos, |infos|) <==> DefOfName(name).lbl == lbl {
      var d := DefOfName(name);
      if d.lbl == lbl {
        assert d == IndexDef(lbl, d.props) && d.props in infos;
        var j :| 0 <= j < |infos| && infos[j] == d.props;
        assert TableName(IndexDef(lbl, infos[j])) == name;
      }
      if name in TablesOf(lbl, infos, |infos|) {
        var j :| 0 <= j < |infos| && TableName(IndexDef(lbl, infos[j])) == name;
        assert infos[j] in infos;
        NameIsOk(IndexDef(lbl, infos[j]));
      }
    }
  }

  /** `update_indexes_for_label`: brings every index of the label up to date for one node. */
  method UpdateIndexesForLabel(conn: Connection, id: u64, lbl: Name, before: Option<Props>, after: Props)
    requires NamesOk(conn.indexTables)
    modifies conn`indexTables
    ensures conn.indexTables == TouchTables(old(conn.indexTables), conn.encode, {lbl}, id, before, after)
  {
    hide TableName, DefOfName, DefOk, Touch, ValidName, TouchNamed, TouchTables, TablesOf, NamesOk;
    ghost var tables := conn.indexTables;
    var infos := ListIndexesForLabel(conn, lbl);
    NothingTouched(tables, conn.encode, lbl, infos, id, before, after);
    for i := 0 to |infos|
      invariant conn.indexTables == TouchNamed(tables, conn.encode, TablesOf(lbl, infos, i), id, before, after)
    {
      assert forall j :: 0 <= j <= i ==> infos[j] in infos;
      DistinctTables(lbl, infos, i);
      NameIsOk(IndexDef(lbl, infos[i]));
      TouchOneMore(tables, conn.encode, TablesOf(lbl, infos, i), id, before, after, TableName(IndexDef(lbl, infos[i])));
      TouchTable(conn, lbl, infos[i], id, before, after);
    }
    AllTablesOf(tables, lbl, infos, conn.encode, id, before, after);
  }

  lemma NothingTouched(tables: Tables, encode: Value -> Key, lbl: Name, infos: seq<seq<Name>>, id: u64,
                       before: Option<Props>, after: Props)
    ensures TouchNamed(tables, encode, TablesOf(lbl, infos, 0), id, before, after) == tables
  {
    hide Touch, DefOfName, TableName;
  }

  lemma TouchTwice(tables: Tables, encode: Value -> Key, labels: set<Name>, lbl: Name, id: u64, before: Option<Props>,
                   after: Props)
    ensures TouchTables(TouchTables(tables, encode, labels, id, before, after), encode, {lbl}, id, before, after) ==
            TouchTables(tables, encode, labels + {lbl}, id, before, after)
  {
    hide DefOfName, Touch;
    forall name | name in tables
      ensures var cols := DefOfName(name).props;
              var once := Touch(tables[name], encode, cols, id, before, after);
              Touch(once, encode, cols, id, before, after) == once
    {
      TouchIdempotent(tables[name], encode, DefOfName(name).props, id, before, after);
    }
  }

  lemma TouchIdempotent(keys: set<Key>, encode: Value -> Key, cols: seq<Name>, id: u64, before: Option<Props>,
                        after: Props)
    ensures var once := Touch(keys, encode, cols, id, before, after);
            Touch(once, encode, cols, id, before, after) == once
  {
    hide OldEntry, Entry;
  }

  lemma TouchedNamesOk(tables: Tables, encode: Value -> Key, labels: set<Name>, id: u64, before: Option<Props>,
                       after: Props)
    requires NamesOk(tables)
    ensures NamesOk(TouchTables(tables, encode, labels, id, before, after))
  {
    hide DefOfName, Touch, NameOk;
  }

  lemma NoLabelsTouched(tables: Tables, encode: Value -> Key, id: u64, before: Option<Props>, after: Props)
    ensures TouchTables(tables, encode, {}, id, before, after) == tables
  {
    hide DefOfName, Touch;
  }

  /** `update_indexes_for_node`: the same for all labels of the node, the first and the others. A
      label listed twice does no harm. */
  method UpdateIndexesForNode(conn: Connection, id: u64, labels: seq<Name>, before: Option<Props>, after: Props)
    requires NamesOk(conn.indexTables)
    modifies conn`indexTables
    ensures conn.indexTables == TouchTables(old(conn.indexTables), conn.encode, Elems(labels), id, before, after)
  {
    hide TouchTables, NamesOk, Elems;
    ghost var tables := conn.indexTables;
    assert labels[..0] == [] && Elems(labels[..0]) == {} by { NoElems(); }
    NoLabelsTouched(tables, conn.encode, id, before, after);
    for i := 0 to |labels|
      invariant NamesOk(conn.indexTables)
      invariant conn.indexTables == TouchTables(tables, conn.encode, Elems(labels[..i]), id, before, after)
    {
      TakeOneMore(labels, i, labels[i]);
      ElemsConcat(labels[..i], [labels[i]]);
      ElemsSingle(labels[i]);
      TouchTwice(tables, conn.encode, Elems(labels[..i]), labels[i], id, before, after);
      UpdateIndexesForLabel(conn, id, labels[i], before, after);
      TouchedNamesOk(tables, conn.encode, Elems(labels[..i + 1]), id, before, after);
    }
    assert labels[..|labels|] == labels;
  }

  lemma NoElems()
    ensures Elems<Name>([]) == {}
  {
  }

  /** The delete for one index of `remove_indexes_for_label`. */
  method RemoveEntry(conn: Connection, lbl: Name, cols: seq<Name>, id: u64, props: Props)
    requires DefOk(IndexDef(lbl, cols)) && TableName(IndexDef(lbl, cols)) in conn.indexTables
    modifies conn`indexTables
    ensures var name := TableName(IndexDef(lbl, cols));
            conn.indexTables ==
                old(conn.indexTables)[name := Touch(old(conn.indexTables)[name], conn.encode, cols, id, Some(props),
                    map[])]
  {
    hide TableName, CompositeKey, Values, Covers;
    var name := TableName(IndexDef(lbl, cols));
    ghost var start := conn.indexTables[name];
    NothingCovered(lbl, cols);
    var values := CollectValues(props, cols);
    if values.Some? {
      var key := CompositeIndexKey(conn, values.value, id);
      conn.indexTables := conn.indexTables[name := conn.indexTables[name] - {key}];
    }
    assert conn.indexTables[name] == Touch(start, conn.encode, cols, id, Some(props), map[]);
  }

  /** `remove_indexes_for_label`. */
  method RemoveIndexesForLabel(conn: Connection, id: u64, lbl: Name, props: Props)
    requires NamesOk(conn.indexTables)
    modifies conn`indexTables
    ensures conn.indexTables == TouchTables(old(conn.indexTables), conn.encode, {lbl}, id, Some(props), map[])
  {
    hide TableName, DefOfName, DefOk, Touch, ValidName, TouchNamed, TouchTables, TablesOf, NamesOk;
    ghost var tables := conn.indexTables;
    var infos := ListIndexesForLabel(conn, lbl);
    NothingTouched(tables, conn.encode, lbl, infos, id, Some(props), map[]);
    for i := 0 to |infos|
      invariant conn.indexTables == TouchNamed(tables, conn.encode, TablesOf(lbl, infos, i), id, Some(props), map[])
    {
      assert forall j :: 0 <= j <= i ==> infos[j] in infos;
      DistinctTables(lbl, infos, i);
      NameIsOk(IndexDef(lbl, infos[i]));
      var name := TableName(IndexDef(lbl, infos[i]));
      TouchOneMore(tables, conn.encode, TablesOf(lbl, infos, i), id, Some(props), map[], name);
      RemoveEntry(conn, lbl, infos[i], id, props);
    }
    AllTablesOf(tables, lbl, infos, conn.encode, id, Some(props), map[]);
  }

  lemma NothingCovered(lbl: Name, cols: seq<Name>)
    requires DefOk(IndexDef(lbl, cols))
    ensures !Covers(map[], cols)
  {
    var none: Props := map[];
    assert cols[0] !in none;
  }

  /** `remove_indexes_for_node`. */
  method RemoveIndexesForNode(conn: Connection, id: u64, labels: seq<Name>, props: Props)
    requires NamesOk(conn.indexTables)
    modifies conn`indexTables
    ensures conn.indexTables == TouchTables(old(conn.indexTables), conn.encode, Elems(labels), id, Some(props), map[])
  {
    hide TouchTables, NamesOk, Elems;
    ghost var tables := conn.indexTables;
    assert labels[..0] == [] && Elems(labels[..0]) == {} by { NoElems(); }
    NoLabelsTouched(tables, conn.encode, id, Some(props), map[]);
    for i := 0 to |labels|
      invariant NamesOk(conn.indexTables)
      invariant conn.indexTables == TouchTables(tables, conn.encode, Elems(labels[..i]), id, Some(props), map[])
    {
      TakeOneMore(labels, i, labels[i]);
      ElemsConcat(labels[..i], [labels[i]]);
      ElemsSingle(labels[i]);
      TouchTwice(tables, conn.encode, Elems(labels[..i]), labels[i], id, Some(props), map[]);
      RemoveIndexesForLabel(conn, id, labels[i], props);
      TouchedNamesOk(tables, conn.encode, Elems(labels[..i + 1]), id, Some(props), map[]);
    }
    assert labels[..|labels|] == labels;
  }
}
