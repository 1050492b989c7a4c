/** Rows by column name: key columns, building tuples, and batches that are sent whole or not at all. */
module Tables {
  import opened Bytes
  import opened Types
  import opened Elements
  import opened BinaryTuple
  import opened TupleReader
  import opened Msgpack
  import opened Requests
  import opened SerialClient
  import opened Responses
  import opened Acceptance

  /** A column or row name, with what strings.ToUpper makes of it. */
  datatype Name = Name(text: string, upper: string)

  datatype TableColumn = TableColumn(name: Name, typeId: int, kind: Kind, keyIndex: int, key: bool, scale: int)

  datatype TableSchema = TableSchema(version: Int64, columns: seq<TableColumn>)

  type Row = map<Name, Value>

  // ---------------------------------------------------------------- key columns

  function KeysOf(cols: seq<TableColumn>): (keys: seq<TableColumn>) {
    if cols == [] then []
    else
      var init, c := cols[..|cols| - 1], cols[|cols| - 1];
      if c.key then KeysOf(init) + [c] else KeysOf(init)
  }

  predicate Ordered(keys: seq<TableColumn>) {
    forall i, j :: 0 <= i < j < |keys| ==> keys[i].keyIndex <= keys[j].keyIndex
  }

  /** Any order that sort.Slice, which is not stable, may leave the key columns in. */
  ghost predicate KeyOrder(cols: seq<TableColumn>, keys: seq<TableColumn>) {
    multiset(keys) == multiset(KeysOf(cols)) && Ordered(keys)
  }

  function Insert(c: TableColumn, keys: seq<TableColumn>): (r: seq<TableColumn>) {
    if keys == [] || c.keyIndex < keys[0].keyIndex then [c] + keys else [keys[0]] + Insert(c, keys[1..])
  }

  function SortedKeys(cols: seq<TableColumn>): (keys: seq<TableColumn>) {
    if cols == [] then []
    else
      var init, c := cols[..|cols| - 1], cols[|cols| - 1];
      if c.key then Insert(c, SortedKeys(init)) else SortedKeys(init)
  }

  lemma {:induction false} InsertPermutes(c: TableColumn, keys: seq<TableColumn>)
    ensures multiset(Insert(c, keys)) == multiset(keys) + multiset{c}
  {
    if keys != [] && c.keyIndex >= keys[0].keyIndex {
      InsertPermutes(c, keys[1..]);
      assert keys == [keys[0]] + keys[1..];
    }
  }

  lemma OrderedHead(keys: seq<TableColumn>, c: TableColumn)
    requires Ordered(keys) && c in keys
    ensures keys[0].keyIndex <= c.keyIndex
  {}

  lemma InsertedAbove(c: TableColumn, keys: seq<TableColumn>, low: int)
    requires c.keyIndex >= low && forall j :: 0 <= j < |keys| ==> keys[j].keyIndex >= low
    ensures forall j :: 0 <= j < |Insert(c, keys)| ==> Insert(c, keys)[j].keyIndex >= low
  {
    var r := Insert(c, keys);
    InsertPermutes(c, keys);
    forall j | 0 <= j < |r| ensures r[j].keyIndex >= low {
      assert r[j] in multiset(r);
      if r[j] != c {
        assert r[j] in multiset(keys);
      }
    }
  }

  lemma OrderedCons(c: TableColumn, keys: seq<TableColumn>)
    requires Ordered(keys) && forall j :: 0 <= j < |keys| ==> c.keyIndex <= keys[j].keyIndex
    ensures Ordered([c] + keys)
  {}

  lemma {:induction false} InsertOrders(c: TableColumn, keys: seq<TableColumn>)
    requires Ordered(keys)
    ensures Ordered(Insert(c, keys))
  {
    if keys == [] || c.keyIndex < keys[0].keyIndex {
      OrderedCons(c, keys);
    } else {
      InsertOrders(c, keys[1..]);
      InsertedAbove(c, keys[1..], keys[0].keyIndex);
      OrderedCons(keys[0], Insert(c, keys[1..]));
    }
  }

  method SortSlice(keys: seq<TableColumn>) returns (sorted: seq<TableColumn>)
    ensures multiset(sorted) == multiset(keys) && Ordered(sorted)
  {
    sorted := [];
    for i := 0 to |keys|
      invariant multiset(sorted) == multiset(keys[..i]) && Ordered(sorted)
    {
      InsertPermutes(keys[i], sorted);
      InsertOrders(keys[i], sorted);
      assert keys[..i + 1] == keys[..i] + [keys[i]];
      sorted := Insert(keys[i], sorted);
    }
    assert keys[..|keys|] == keys;
  }

  method KeyColumns(cols: seq<TableColumn>) returns (keys: seq<TableColumn>)
    ensures KeyOrder(cols, keys)
  {
    keys := [];
    for i := 0 to |cols|
      invariant keys == KeysOf(cols[..i])
    {
      assert cols[..i + 1][..i] == cols[..i];
      if cols[i].key {
        keys := keys + [cols[i]];
      }
    }
    assert cols[..|cols|] == cols;
    keys := SortSlice(keys);
  }

  /** No two key columns share a key index. */
  predicate DistinctKeys(cols: seq<TableColumn>) {
    forall c, d :: c in cols && d in cols && c.key && d.key && c.keyIndex == d.keyIndex ==> c == d
  }

  lemma {:induction false} SortedKeysOrder(cols: seq<TableColumn>)
    ensures KeyOrder(cols, SortedKeys(cols))
  {
    if cols != [] {
      var init, c := cols[..|cols| - 1], cols[|cols| - 1];
      SortedKeysOrder(init);
      if c.key {
        InsertPermutes(c, SortedKeys(init));
        InsertOrders(c, SortedKeys(init));
      }
    }
  }

  lemma {:induction false} KeysOfMembers(cols: seq<TableColumn>, c: TableColumn)
    ensures c in KeysOf(cols) <==> c in cols && c.key
  {
    if cols != [] {
      KeysOfMembers(cols[..|cols| - 1], c);
      assert cols == cols[..|cols| - 1] + [cols[|cols| - 1]];
    }
  }

  lemma SameHead(a: seq<TableColumn>, b: seq<TableColumn>)
    requires a != [] && b != [] && multiset(a) == multiset(b) && Ordered(a) && Ordered(b)
    requires forall x, y :: x in a && y in a && x.keyIndex == y.keyIndex ==> x == y
    ensures a[0] == b[0]
  {
    assert a[0] in multiset(b) && b[0] in multiset(a);
    OrderedHead(a, b[0]);
    OrderedHead(b, a[0]);
  }

  lemma WithoutHead(keys: seq<TableColumn>)
    requires keys != []
    ensures multiset(keys[1..]) == multiset(keys) - multiset{keys[0]}
    ensures forall x :: x in keys[1..] ==> x in keys
  {
    assert keys == [keys[0]] + keys[1..];
  }

  /** Two ordered arrangements of the same columns are the same when equal indexes mean equal columns. */
  lemma {:induction false} OrderedUnique(a: seq<TableColumn>, b: seq<TableColumn>)
    requires multiset(a) == multiset(b) && Ordered(a) && Ordered(b)
    requires forall x, y :: x in a && y in a && x.keyIndex == y.keyIndex ==> x == y
    ensures a == b
    decreases |a|
  {
    assert |multiset(a)| == |a| && |multiset(b)| == |b|;
    if a != [] {
      SameHead(a, b);
      WithoutHead(a);
      WithoutHead(b);
      OrderedUnique(a[1..], b[1..]);
    }
  }

  /** With distinct key indexes the unstable sort has only one possible outcome. */
  lemma KeyOrderUnique(cols: seq<TableColumn>, keys: seq<TableColumn>)
    requires DistinctKeys(cols) && KeyOrder(cols, keys)
    ensures keys == SortedKeys(cols)
  {
    SortedKeysOrder(cols);
    forall x, y | x in keys && y in keys && x.keyIndex == y.keyIndex ensures x == y {
      assert x in multiset(KeysOf(cols)) && y in multiset(KeysOf(cols));
      KeysOfMembers(cols, x);
      KeysOfMembers(cols, y);
    }
    OrderedUnique(keys, SortedKeys(cols));
  }

  // ---------------------------------------------------------------- building tuples

  /** A value the lookup may hold for a column: with names that differ only in case, any of theirs. */
  ghost predicate PossibleValue(row: Row, name: Name, v: Value) {
    (exists k :: k in row && k.upper == name.upper && row[k] == v)
    || ((forall k :: k in row ==> k.upper != name.upper) && v == Nil)
  }

  predicate DistinctNames(row: Row) {
    forall j, k :: j in row && k in row && j.upper == k.upper ==> j == k
  }

  ghost function ValueFor(row: Row, name: Name): (v: Value) {
    if exists k :: k in row && k.upper == name.upper
    then var k :| k in row && k.upper == name.upper; row[k]
    else Nil
  }

  lemma ValueForUnique(row: Row, name: Name, v: Value)
    requires DistinctNames(row)
    ensures PossibleValue(row, name, v) <==> v == ValueFor(row, name)
  {}

  function TupleColumns(cols: seq<TableColumn>): (r: seq<BinaryTupleColumn>)
    ensures |r| == |cols|
  {
    seq(|cols|, i requires 0 <= i < |cols| => BinaryTupleColumn(cols[i].kind, cols[i].scale))
  }

  ghost function TupleValues(cols: seq<TableColumn>, row: Row): (r: seq<Value>)
    ensures |r| == |cols|
  {
    seq(|cols|, i requires 0 <= i < |cols| => ValueFor(row, cols[i].name))
  }

  ghost predicate PossibleValues(cols: seq<TableColumn>, row: Row, vals: seq<Value>) {
    |vals| == |cols| && forall i :: 0 <= i < |cols| ==> PossibleValue(row, cols[i].name, vals[i])
  }

  ghost predicate PossibleTuple(cols: seq<TableColumn>, row: Row, r: Outcome<seq<Byte>>) {
    exists vals :: PossibleValues(cols, row, vals) && r == BuildBinaryTupleSpec(TupleColumns(cols), vals)
  }

  ghost function TupleOf(cols: seq<TableColumn>, row: Row): (r: Outcome<seq<Byte>>) {
    BuildBinaryTupleSpec(TupleColumns(cols), TupleValues(cols, row))
  }

  /** When no two names of the row differ only in case, the map's iteration order does not matter. */
  lemma TupleIsDetermined(cols: seq<TableColumn>, row: Row, r: Outcome<seq<Byte>>)
    requires DistinctNames(row)
    ensures PossibleTuple(cols, row, r) <==> r == TupleOf(cols, row)
  {
    forall vals | PossibleValues(cols, row, vals) ensures vals == TupleValues(cols, row) {
      forall i | 0 <= i < |cols| ensures vals[i] == TupleValues(cols, row)[i] {
        ValueForUnique(row, cols[i].name, vals[i]);
      }
    }
    forall i | 0 <= i < |cols| ensures PossibleValue(row, cols[i].name, TupleValues(cols, row)[i]) {
      ValueForUnique(row, cols[i].name, ValueFor(row, cols[i].name));
    }
    assert PossibleValues(cols, row, TupleValues(cols, row));
  }

  /** Fills the lookup in whatever order the map is iterated. */
  method UpperCased(row: Row) returns (lookup: map<string, Value>)
    ensures forall u :: u in lookup ==> exists k :: k in row && k.upper == u && row[k] == lookup[u]
    ensures forall k :: k in row ==> k.upper in lookup
  {
    lookup := map[];
    var left := row.Keys;
    while left != {}
      invariant left <= row.Keys
      invariant forall u :: u in lookup ==> exists k :: k in row && k.upper == u && row[k] == lookup[u]
      invariant forall k :: k in row && k !in left ==> k.upper in lookup
      decreases left
    {
      var k :| k in left;
      lookup := lookup[k.upper := row[k]];
      left := left - {k};
    }
  }

  method BuildTuple(cols: seq<TableColumn>, row: Row) returns (r: Outcome<seq<Byte>>)
    ensures PossibleTuple(cols, row, r) && !r.Panic?
  {
    var lookup := UpperCased(row);
    var tupleCols: seq<BinaryTupleColumn>, vals: seq<Value> := [], [];
    for i := 0 to |cols|
      invariant |tupleCols| == |vals| == i
      invariant forall k :: 0 <= k < i ==> tupleCols[k] == BinaryTupleColumn(cols[k].kind, cols[k].scale)
      invariant forall k :: 0 <= k < i ==> PossibleValue(row, cols[k].name, vals[k])
    {
      tupleCols := tupleCols + [BinaryTupleColumn(cols[i].kind, cols[i].scale)];
      var u := cols[i].name.upper;
      vals := vals + [if u in lookup then lookup[u] else Nil];
    }
    assert tupleCols == TupleColumns(cols);
    assert PossibleValues(cols, row, vals);
    r := BuildBinaryTuple(tupleCols, vals);
  }

  // ---------------------------------------------------------------- key projection

  ghost function ElementOf(c: TableColumn, row: Row): (r: Outcome<seq<Byte>>) {
    EncodeElement(BinaryTupleColumn(c.kind, c.scale), ValueFor(row, c.name))
  }

  ghost function RowElements(cols: seq<TableColumn>, row: Row): (r: Outcome<seq<seq<Byte>>>) {
    EncodeRow(TupleColumns(cols), TupleValues(cols, row))
  }

  ghost function Size(cols: seq<TableColumn>, row: Row): (n: nat) {
    if cols == [] then 0
    else
      Size(cols[1..], row) + match ElementOf(cols[0], row)
                             case Ok(bs) => |bs|
                             case _ => 0
  }

  lemma {:induction false} SizeAppend(a: seq<TableColumn>, b: seq<TableColumn>, row: Row)
    ensures Size(a + b, row) == Size(a, row) + Size(b, row)
    decreases |a|
  {
    if a == [] {
      assert a + b == b;
    } else {
      assert (a + b)[1..] == a[1..] + b;
      SizeAppend(a[1..], b, row);
    }
  }

  lemma {:induction false} SizeInsert(c: TableColumn, keys: seq<TableColumn>, row: Row)
    ensures Size(Insert(c, keys), row) == Size([c], row) + Size(keys, row)
  {
    if keys == [] || c.keyIndex < keys[0].keyIndex {
      SizeAppend([c], keys, row);
    } else {
      SizeInsert(c, keys[1..], row);
      SizeAppend([keys[0]], Insert(c, keys[1..]), row);
      SizeAppend([keys[0]], keys[1..], row);
      assert [keys[0]] + keys[1..] == keys;
    }
  }

  lemma {:induction false} KeysAreSmaller(cols: seq<TableColumn>, row: Row)
    ensures Size(SortedKeys(cols), row) <= Size(cols, row)
  {
    if cols != [] {
      var init, c := cols[..|cols| - 1], cols[|cols| - 1];
      KeysAreSmaller(init, row);
      SizeAppend(init, [c], row);
      assert init + [c] == cols;
      if c.key {
        SizeInsert(c, SortedKeys(init), row);
      }
    }
  }

  lemma RowElementsStep(cols: seq<TableColumn>, row: Row)
    requires cols != []
    ensures var last := |cols| - 1;
            RowElements(cols, row) ==
            match RowElements(cols[..last], row)
            case Err(e) => Err(e)
            case Ok(elems) =>
              match ElementOf(cols[last], row)
              case Err(e) => Err(e)
              case Ok(bs) => Ok(elems + [bs])
              case Panic => Panic
  {
    var last := |cols| - 1;
    assert TupleColumns(cols)[..last] == TupleColumns(cols[..last]);
    assert TupleValues(cols, row)[..last] == TupleValues(cols[..last], row);
    NeverPanics(TupleColumns(cols)[last], TupleValues(cols, row)[last]);
  }

  lemma {:induction false} RowSucceeds(cols: seq<TableColumn>, row: Row)
    requires forall i :: 0 <= i < |cols| ==> ElementOf(cols[i], row).Ok?
    ensures RowElements(cols, row).Ok?
  {
    if cols != [] {
      RowSucceeds(cols[..|cols| - 1], row);
      RowElementsStep(cols, row);
    }
  }

  lemma {:induction false} RowSize(cols: seq<TableColumn>, row: Row)
    requires RowElements(cols, row).Ok?
    ensures |Concat(RowElements(cols, row).value)| == Size(cols, row)
  {
    if cols != [] {
      var last := |cols| - 1;
      RowElementsStep(cols, row);
      RowSize(cols[..last], row);
      ConcatAppend(RowElements(cols[..last], row).value, ElementOf(cols[last], row).value);
      SizeAppend(cols[..last], [cols[last]], row);
      assert cols == cols[..last] + [cols[last]];
    }
  }

  lemma RowElementAt(cols: seq<TableColumn>, row: Row, i: nat)
    requires i < |cols| && RowElements(cols, row).Ok?
    ensures |RowElements(cols, row).value| == |cols|
    ensures ElementOf(cols[i], row) == Ok(RowElements(cols, row).value[i])
  {
    EncodeRowAt(TupleColumns(cols), TupleValues(cols, row), i);
  }

  lemma KeyIsAColumn(cols: seq<TableColumn>, k: nat)
    requires k < |SortedKeys(cols)|
    ensures SortedKeys(cols)[k] in cols && SortedKeys(cols)[k].key
  {
    SortedKeysOrder(cols);
    var c := SortedKeys(cols)[k];
    assert c in multiset(SortedKeys(cols));
    KeysOfMembers(cols, c);
  }

  lemma KeyTupleExists(cols: seq<TableColumn>, row: Row)
    requires TupleOf(cols, row).Ok?
    ensures TupleOf(SortedKeys(cols), row).Ok?
  {
    var keys := SortedKeys(cols);
    forall i | 0 <= i < |keys| ensures ElementOf(keys[i], row).Ok? {
      KeyIsAColumn(cols, i);
      var p :| 0 <= p < |cols| && cols[p] == keys[i];
      RowElementAt(cols, row, p);
    }
    RowSucceeds(keys, row);
    RowSize(cols, row);
    RowSize(keys, row);
    KeysAreSmaller(cols, row);
  }

  /**
   * Key projection: whenever the full row can be built so can its key, and element k of the key tuple is the full
   * tuple's element for the k-th key column.
   */
  lemma KeyProjection(cols: seq<TableColumn>, row: Row, k: nat, p: nat)
    requires TupleOf(cols, row).Ok?
    requires k < |SortedKeys(cols)| && p < |cols| && SortedKeys(cols)[k] == cols[p]
    ensures TupleOf(SortedKeys(cols), row).Ok?
    ensures RowElements(SortedKeys(cols), row).Ok? && RowElements(cols, row).Ok?
    ensures |RowElements(SortedKeys(cols), row).value| == |SortedKeys(cols)| && |RowElements(cols, row).value| == |cols|
    ensures RowElements(SortedKeys(cols), row).value[k] == RowElements(cols, row).value[p]
  {
    KeyTupleExists(cols, row);
    RowElementAt(cols, row, p);
    RowElementAt(SortedKeys(cols), row, k);
  }

  /** Read back from the wire, key element k holds the same bytes as the full row's element of that column. */
  lemma KeyProjectionOnTheWire(cols: seq<TableColumn>, row: Row, keyMeta: seq<ColumnMetadata>,
                               meta: seq<ColumnMetadata>, k: nat, p: nat)
    requires TupleOf(cols, row).Ok?
    requires k < |SortedKeys(cols)| && p < |cols| && SortedKeys(cols)[k] == cols[p]
    requires |keyMeta| == |SortedKeys(cols)| && |meta| == |cols| && keyMeta[k] == meta[p]
    ensures TupleOf(SortedKeys(cols), row).Ok?
    ensures var key := DecodeTuple(keyMeta, TupleOf(SortedKeys(cols), row).value);
            var full := DecodeTuple(meta, TupleOf(cols, row).value);
            key.Ok? && full.Ok? && key.value[k] == full.value[p]
  {
    KeyProjection(cols, row, k, p);
    var keys := SortedKeys(cols);
    RowReadsBack(TupleColumns(keys), TupleValues(keys, row), keyMeta);
    RowReadsBack(TupleColumns(cols), TupleValues(cols, row), meta);
  }

  /** Rows that agree on the key columns are deleted by the same key bytes. */
  lemma SameKeySameBytes(cols: seq<TableColumn>, a: Row, b: Row)
    requires forall c :: c in cols && c.key ==> ValueFor(a, c.name) == ValueFor(b, c.name)
    ensures TupleOf(SortedKeys(cols), a) == TupleOf(SortedKeys(cols), b)
  {
    var keys := SortedKeys(cols);
    forall i | 0 <= i < |keys| ensures TupleValues(keys, a)[i] == TupleValues(keys, b)[i] {
      KeyIsAColumn(cols, i);
    }
    assert TupleValues(keys, a) == TupleValues(keys, b);
  }

  // ---------------------------------------------------------------- batches

  lemma EntryAppended(header: seq<Byte>, entries: seq<seq<Byte>>, i: nat, row: seq<Byte>)
    requires i < |entries| && entries[i] == [0xc7, 0x00, 0x08] + row
    ensures header + Concat(entries[..i]) + [0xc7, 0x00, 0x08] + row == header + Concat(entries[..i + 1])
  {
    assert entries[..i + 1] == entries[..i] + [entries[i]];
    ConcatAppend(entries[..i], entries[i]);
  }

  method WriteBatchPayload(tableId: Int64, schemaVersion: Int64, tuples: seq<seq<Byte>>) returns (buf: seq<Byte>)
    requires |tuples| < 0x8000_0000_0000_0000
    ensures buf == BatchPayload(tableId, schemaVersion, tuples)
  {
    buf := EncodeInt(tableId);
    buf := buf + [NIL];
    buf := buf + EncodeInt(schemaVersion);
    buf := buf + EncodeInt(|tuples|);
    ghost var header := buf;
    ghost var entries := RowEntryList(tuples);
    for i := 0 to |tuples|
      invariant buf == header + Concat(entries[..i])
    {
      var row := EncodeBin(tuples[i]);
      RowEntryAt(tuples, i);
      EntryAppended(header, entries, i, row);
      buf := buf + [0xc7, 0x00, 0x08];
      buf := buf + row;
    }
    assert entries[..|tuples|] == entries;
  }

  /** The call of a batch; world supplies what happens to it on the connection. */
  function BatchCall(opCode: Int64, tableId: Int64, schemaVersion: Int64, tuples: seq<seq<Byte>>, world: Call)
    : (call: Call)
    requires |tuples| < 0x8000_0000_0000_0000
  {
    world.(message := Operation(opCode, BatchPayload(tableId, schemaVersion, tuples)))
  }

  /** Whether an operation went well; its data is of no interest. */
  function StatusOf(r: Outcome<seq<Byte>>): (s: Outcome<()>) {
    match r
    case Ok(_) => Ok(())
    case Err(e) => Err(e)
    case Panic => Panic
  }

  /** Sends nothing for no tuples, and otherwise one request with all of them. */
  method TupleWriteAll(c: Client, opCode: Int64, tableId: Int64, schemaVersion: Int64, tuples: seq<seq<Byte>>,
                       world: Call)
    returns (r: Outcome<()>)
    requires |tuples| < 0x8000_0000_0000_0000
    modifies c
    ensures tuples == [] ==> r == Ok(()) && c.State() == old(c.State())
    ensures tuples != [] ==>
              var call := BatchCall(opCode, tableId, schemaVersion, tuples, world);
              c.State() == AfterCall(old(c.State()), call) && r == StatusOf(ResultOf(old(c.State()), call))
  {
    if |tuples| == 0 {
      return Ok(());
    }
    var buf := WriteBatchPayload(tableId, schemaVersion, tuples);
    var answer := c.Operation(world.(message := Operation(opCode, buf)));
    r := StatusOf(answer);
  }

  ghost predicate AllBuilt(cols: seq<TableColumn>, rows: seq<Row>, tuples: seq<Outcome<seq<Byte>>>) {
    |tuples| <= |rows|
    && forall k :: 0 <= k < |tuples| ==> PossibleTuple(cols, rows[k], tuples[k]) && tuples[k].Ok?
  }

  function Built(tuples: seq<Outcome<seq<Byte>>>): (r: seq<seq<Byte>>)
    requires forall i :: 0 <= i < |tuples| ==> tuples[i].Ok?
    ensures |r| == |tuples|
  {
    seq(|tuples|, i requires 0 <= i < |tuples| => tuples[i].value)
  }

  /**
   * All or nothing. tuples are the rows encoded so far, in order: if one of them failed, or there is none, the
   * connection is as before; otherwise every row is among them and one call with all of them was made.
   */
  ghost predicate BatchOutcome(opCode: Int64, id: Int64, schema: TableSchema, cols: seq<TableColumn>, rows: seq<Row>,
                               world: Call, tuples: seq<Outcome<seq<Byte>>>, r: Outcome<()>,
                               before: Connection, after: Connection) {
    && |tuples| <= |rows| < 0x8000_0000_0000_0000
    && (forall i :: 0 <= i < |tuples| ==> PossibleTuple(cols, rows[i], tuples[i]))
    && if exists i :: 0 <= i < |tuples| && !tuples[i].Ok? then
         tuples[|tuples| - 1].Err? && r == Err(tuples[|tuples| - 1].error) && after == before
       else
         && |tuples| == |rows|
         && (rows == [] ==> after == before && r == Ok(()))
         && (rows != [] ==>
               var call := BatchCall(opCode, id, schema.version, Built(tuples), world);
               after == AfterCall(before, call) && r == StatusOf(ResultOf(before, call)))
  }

  /** Stopping at the first row that cannot be encoded, with nothing written, is an allowed outcome. */
  lemma BatchFails(opCode: Int64, id: Int64, schema: TableSchema, cols: seq<TableColumn>, rows: seq<Row>, world: Call,
                   tuples: seq<Outcome<seq<Byte>>>, t: Outcome<seq<Byte>>, c: Connection)
    requires AllBuilt(cols, rows, tuples) && |tuples| < |rows| < 0x8000_0000_0000_0000
    requires t.Err? && PossibleTuple(cols, rows[|tuples|], t)
    ensures BatchOutcome(opCode, id, schema, cols, rows, world, tuples + [t], Err(t.error), c, c)
  {
    var all := tuples + [t];
    assert all[|all| - 1] == t;
  }

  /** Sending the tuples of all rows in one call is the other one. */
  lemma BatchSends(opCode: Int64, id: Int64, schema: TableSchema, cols: seq<TableColumn>, rows: seq<Row>, world: Call,
                   tuples: seq<Outcome<seq<Byte>>>, r: Outcome<()>, before: Connection, after: Connection)
    requires AllBuilt(cols, rows, tuples) && |tuples| == |rows| < 0x8000_0000_0000_0000
    requires rows == [] ==> r == Ok(()) && after == before
    requires rows != [] ==>
               var call := BatchCall(opCode, id, schema.version, Built(tuples), world);
               after == AfterCall(before, call) && r == StatusOf(ResultOf(before, call))
    ensures BatchOutcome(opCode, id, schema, cols, rows, world, tuples, r, before, after)
  {}

  class Table {
    const id: Int64
    const schema: TableSchema
    const c: Client

    constructor (id: Int64, schema: TableSchema, c: Client)
      ensures this.id == id && this.schema == schema && this.c == c
    {
      this.id := id;
      this.schema := schema;
      this.c := c;
    }

    method UpsertAll(rows: seq<Row>, world: Call) returns (r: Outcome<()>, ghost tuples: seq<Outcome<seq<Byte>>>)
      requires |rows| < 0x8000_0000_0000_0000
      modifies c
      ensures BatchOutcome(OP_TUPLE_UPSERT_ALL, id, schema, schema.columns, rows, world, tuples, r,
                           old(c.State()), c.State())
    {
      r, tuples := WriteBatch(OP_TUPLE_UPSERT_ALL, schema.columns, rows, world);
    }

    method DeleteAll(keys: seq<Row>, world: Call) returns (r: Outcome<()>, ghost tuples: seq<Outcome<seq<Byte>>>)
      requires |keys| < 0x8000_0000_0000_0000
      modifies c
      ensures exists keyColumns :: KeyOrder(schema.columns, keyColumns) &&
                BatchOutcome(OP_TUPLE_DELETE_ALL, id, schema, keyColumns, keys, world, tuples, r,
                             old(c.State()), c.State())
    {
      var keyColumns := KeyColumns(schema.columns);
      r, tuples := WriteBatch(OP_TUPLE_DELETE_ALL, keyColumns, keys, world);
    }

    method WriteBatch(opCode: Int64, cols: seq<TableColumn>, rows: seq<Row>, world: Call)
      returns (r: Outcome<()>, tuples: seq<Outcome<seq<Byte>>>)
      requires |rows| < 0x8000_0000_0000_0000
      modifies c
      ensures BatchOutcome(opCode, id, schema, cols, rows, world, tuples, r, old(c.State()), c.State())
    {
      tuples := [];
      for i := 0 to |rows|
        invariant |tuples| == i && AllBuilt(cols, rows, tuples)
        invariant c.State() == old(c.State())
      {
        var t := BuildTuple(cols, rows[i]);
        if !t.Ok? {
          BatchFails(opCode, id, schema, cols, rows, world, tuples, t, c.State());
          return Err(t.error), tuples + [t];
        }
        tuples := tuples + [t];
      }
      r := TupleWriteAll(c, opCode, id, schema.version, Built(tuples), world);
      BatchSends(opCode, id, schema, cols, rows, world, tuples, r, old(c.State()), c.State());
    }
  }

  /** A call that changed what is on the wire added its own frame there. */
  lemma CallOnTheWire(before: Connection, call: Call)
    requires call.message.Operation? && AfterCall(before, call).written != before.written
    ensures AfterCall(before, call).written == before.written
              + [Delivered(before.requestId, RequestFrame(call.message.code, before.requestId, call.message.data))]
  {}

  /** The rows of a batch that left the connection changed were all built, each to its one possible tuple. */
  lemma BatchWasBuilt(opCode: Int64, id: Int64, schema: TableSchema, cols: seq<TableColumn>, rows: seq<Row>,
                      world: Call, tuples: seq<Outcome<seq<Byte>>>, r: Outcome<()>,
                      before: Connection, after: Connection)
    requires BatchOutcome(opCode, id, schema, cols, rows, world, tuples, r, before, after)
    requires after != before
    requires forall i :: 0 <= i < |rows| ==> DistinctNames(rows[i])
    ensures rows != [] && |tuples| == |rows|
    ensures forall i :: 0 <= i < |rows| ==> tuples[i].Ok? && tuples[i] == TupleOf(cols, rows[i])
    ensures after == AfterCall(before, BatchCall(opCode, id, schema.version, Built(tuples), world))
  {
    forall i | 0 <= i < |rows| ensures tuples[i] == TupleOf(cols, rows[i]) {
      TupleIsDetermined(cols, rows[i], tuples[i]);
    }
  }

  /**
   * A batch that reached the wire carries, in order, exactly the tuples of its rows: parsing the one frame it added
   * gives back the operation, the request id, the table, the schema version and every tuple.
   */
  lemma BatchOnTheWire(opCode: Int64, id: Int64, schema: TableSchema, cols: seq<TableColumn>, rows: seq<Row>,
                       world: Call, tuples: seq<Outcome<seq<Byte>>>, r: Outcome<()>,
                      before: Connection, after: Connection)
    requires BatchOutcome(opCode, id, schema, cols, rows, world, tuples, r, before, after)
    requires after.written != before.written
    requires forall i :: 0 <= i < |tuples| && tuples[i].Ok? ==> |tuples[i].value| < TWO32
    requires forall i :: 0 <= i < |rows| ==> DistinctNames(rows[i])
    ensures rows != [] && |tuples| == |rows|
    ensures forall i :: 0 <= i < |rows| ==> tuples[i].Ok? && tuples[i] == TupleOf(cols, rows[i])
    ensures var data := BatchPayload(id, schema.version, Built(tuples));
            var frame := RequestFrame(opCode, before.requestId, data);
            && after.written == before.written + [Delivered(before.requestId, frame)]
            && ParseBatch(data) == Some(Batch(id, schema.version, Built(tuples)))
            && (Understood(Operation(opCode, data), before.requestId) ==>
                  ParseRequest(frame) == Some(Decoded(Envelope(opCode, before.requestId, data), [])))
  {
    BatchWasBuilt(opCode, id, schema, cols, rows, world, tuples, r, before, after);
    var call := BatchCall(opCode, id, schema.version, Built(tuples), world);
    CallOnTheWire(before, call);
    BatchReadsBack(id, schema.version, Built(tuples));
    var data := BatchPayload(id, schema.version, Built(tuples));
    if Understood(Operation(opCode, data), before.requestId) {
      RequestReadsBack(opCode, before.requestId, data, []);
      assert RequestFrame(opCode, before.requestId, data) + [] == RequestFrame(opCode, before.requestId, data);
    }
  }

  /** Rows that agree on the key columns, one by one. */
  ghost predicate SameKeys(cols: seq<TableColumn>, a: seq<Row>, b: seq<Row>) {
    |a| == |b| &&
    forall i, c :: 0 <= i < |a| && c in cols && c.key ==> ValueFor(a[i], c.name) == ValueFor(b[i], c.name)
  }

  lemma SameKeyTuples(cols: seq<TableColumn>, a: seq<Row>, b: seq<Row>, ta: seq<Outcome<seq<Byte>>>,
                      tb: seq<Outcome<seq<Byte>>>)
    requires SameKeys(cols, a, b) && |ta| == |a| && |tb| == |b|
    requires forall i :: 0 <= i < |a| ==> ta[i] == TupleOf(SortedKeys(cols), a[i])
    requires forall i :: 0 <= i < |b| ==> tb[i] == TupleOf(SortedKeys(cols), b[i])
    ensures ta == tb
  {
    forall i | 0 <= i < |a| ensures ta[i] == tb[i] {
      SameKeySameBytes(cols, a[i], b[i]);
    }
  }

  /**
   * With distinct key indexes, two delete batches whose rows agree on the key columns put the same data on the wire,
   * whatever order either sort left the key columns in; with the same request id they are the same bytes.
   */
  lemma DeletesOfSameKeys(id: Int64, schema: TableSchema, keysA: seq<TableColumn>, keysB: seq<TableColumn>,
                          a: seq<Row>, b: seq<Row>, worldA: Call, worldB: Call,
                          ta: seq<Outcome<seq<Byte>>>, tb: seq<Outcome<seq<Byte>>>, ra: Outcome<()>, rb: Outcome<()>,
                          beforeA: Connection, afterA: Connection, beforeB: Connection, afterB: Connection)
    requires DistinctKeys(schema.columns) && SameKeys(schema.columns, a, b)
    requires forall i :: 0 <= i < |a| ==> DistinctNames(a[i]) && DistinctNames(b[i])
    requires KeyOrder(schema.columns, keysA) && KeyOrder(schema.columns, keysB)
    requires BatchOutcome(OP_TUPLE_DELETE_ALL, id, schema, keysA, a, worldA, ta, ra, beforeA, afterA)
    requires BatchOutcome(OP_TUPLE_DELETE_ALL, id, schema, keysB, b, worldB, tb, rb, beforeB, afterB)
    requires afterA.written != beforeA.written && afterB.written != beforeB.written
    ensures ta == tb && forall i :: 0 <= i < |ta| ==> ta[i].Ok?
    ensures var data := BatchPayload(id, schema.version, Built(ta));
            && afterA.written == beforeA.written
                 + [Delivered(beforeA.requestId, RequestFrame(OP_TUPLE_DELETE_ALL, beforeA.requestId, data))]
            && afterB.written == beforeB.written
                 + [Delivered(beforeB.requestId, RequestFrame(OP_TUPLE_DELETE_ALL, beforeB.requestId, data))]
  {
    KeyOrderUnique(schema.columns, keysA);
    KeyOrderUnique(schema.columns, keysB);
    BatchWasBuilt(OP_TUPLE_DELETE_ALL, id, schema, keysA, a, worldA, ta, ra, beforeA, afterA);
    BatchWasBuilt(OP_TUPLE_DELETE_ALL, id, schema, keysB, b, worldB, tb, rb, beforeB, afterB);
    SameKeyTuples(schema.columns, a, b, ta, tb);
    CallOnTheWire(beforeA, BatchCall(OP_TUPLE_DELETE_ALL, id, schema.version, Built(ta), worldA));
    CallOnTheWire(beforeB, BatchCall(OP_TUPLE_DELETE_ALL, id, schema.version, Built(tb), worldB));
  }

  // ---------------------------------------------------------------- what a caller gets

  lemma NamedValue(row: Row, name: Name)
    requires DistinctNames(row)
    ensures forall k :: k in row && k.upper == name.upper ==> ValueFor(row, name) == row[k]
    ensures (forall k :: k in row ==> k.upper != name.upper) ==> ValueFor(row, name) == Nil
  {}

  /** Which rows of a table can be built: every value found by name is one that its column takes, and the size fits. */
  lemma TableRowBuilds(cols: seq<TableColumn>, row: Row, r: Outcome<seq<Byte>>)
    requires DistinctNames(row) && PossibleTuple(cols, row, r)
    ensures RowAccepted(TupleColumns(cols), TupleValues(cols, row)) <==>
            forall i, k :: 0 <= i < |cols| && k in row && k.upper == cols[i].name.upper ==>
              Accepts(cols[i].kind, row[k])
    ensures r.Ok? <==>
            && RowAccepted(TupleColumns(cols), TupleValues(cols, row))
            && AreaSize(TupleColumns(cols), TupleValues(cols, row)) <= 0x7fff_ffff
  {
    TupleIsDetermined(cols, row, r);
    RowBuildsExactly(TupleColumns(cols), TupleValues(cols, row));
    var vals := TupleValues(cols, row);
    forall i | 0 <= i < |cols|
      ensures Accepts(cols[i].kind, vals[i]) <==>
              forall k :: k in row && k.upper == cols[i].name.upper ==> Accepts(cols[i].kind, row[k])
    {
      NamedValue(row, cols[i].name);
    }
  }

  /**
   * From a row by name to its tuple and back: column i reads as the value whose name equals the column's, whatever the
   * case, exactly on the domain of the round trip, and as nil if no name does.
   */
  lemma TableRowRoundTrip(cols: seq<TableColumn>, row: Row, r: Outcome<seq<Byte>>, meta: seq<ColumnMetadata>, i: nat)
    requires DistinctNames(row) && PossibleTuple(cols, row, r) && r.Ok?
    requires |meta| == |cols| && i < |cols|
    requires forall j :: 0 <= j < |cols| ==> cols[j].kind == ColumnKindForTypeId(meta[j].typeId)
    ensures var d := DecodeTuple(meta, r.value);
            var c := BinaryTupleColumn(cols[i].kind, cols[i].scale);
            && d.Ok?
            && (forall k :: k in row && k.upper == cols[i].name.upper ==>
                  (GetValueSpec(d.value, i, meta[i].typeId) == Ok(Expected(c, row[k])) <==>
                   Survives(c, meta[i].precision, row[k])))
            && ((forall k :: k in row ==> k.upper != cols[i].name.upper) ==>
                  GetValueSpec(d.value, i, meta[i].typeId) == Ok(RNil))
  {
    TupleIsDetermined(cols, row, r);
    WholeRowRoundTrip(TupleColumns(cols), TupleValues(cols, row), meta, i);
    NamedValue(row, cols[i].name);
  }

  /** A batch reports a success exactly when its one call succeeds, and otherwise that call's own error. */
  lemma BatchReports(opCode: Int64, id: Int64, schema: TableSchema, cols: seq<TableColumn>, rows: seq<Row>,
                     world: Call, tuples: seq<Outcome<seq<Byte>>>, r: Outcome<()>,
                     before: Connection, after: Connection)
    requires BatchOutcome(opCode, id, schema, cols, rows, world, tuples, r, before, after)
    requires rows != [] && forall i :: 0 <= i < |tuples| ==> tuples[i].Ok?
    ensures var result := ResultOf(before, BatchCall(opCode, id, schema.version, Built(tuples), world));
            && (r == Ok(()) <==> result.Ok?)
            && (r.Panic? <==> result.Panic?)
            && forall e :: r == Err(e) <==> result == Err(e)
  {}

  /**
   * On a connection in good state, a batch whose rows could all be built reports the server's own error exactly when
   * nothing is in its way and the response has the error flag, a success exactly without that flag, and an error that
   * is not the server's in all other cases.
   */
  lemma BatchAnswered(opCode: Int64, id: Int64, schema: TableSchema, cols: seq<TableColumn>, rows: seq<Row>,
                      world: Call, tuples: seq<Outcome<seq<Byte>>>, r: Outcome<()>,
                      before: Connection, after: Connection,
                      flags: Int64, partitionTs: Int64, obsTs: Int64, report: ErrorReport, data: seq<Byte>)
    requires BatchOutcome(opCode, id, schema, cols, rows, world, tuples, r, before, after)
    requires rows != [] && forall i :: 0 <= i < |tuples| ==> tuples[i].Ok?
    requires SerialClient.Inv(before) && world.answer == AnswerOf(flags, partitionTs, obsTs, report, data)
    requires |report.message| < TWO32 && |report.details| < TWO32
    ensures var call := BatchCall(opCode, id, schema.version, Built(tuples), world);
            if !Undisturbed(before, call) then r.Err? && !r.error.ServerError?
            else if flags / 4 % 2 == 1
            then r == Err(ServerError(Wrap(report.code, 0x8000_0000), report.message + [32, 58, 32] + report.details))
            else r == Ok(())
    ensures world.writeFails || world.readFails ==> r == Err(Transport)
  {
    var call := BatchCall(opCode, id, schema.version, Built(tuples), world);
    if world.writeFails || world.readFails {
      TransportFails(before, call);
    }
    BatchReports(opCode, id, schema, cols, rows, world, tuples, r, before, after);
    CallResult(before, call);
    StatusReported(before.requestId, flags, partitionTs, obsTs, report, data, before.requestId);
  }

  /**
   * The rows of a batch are all built and go out in one request, unless its write fails, or one of them cannot be built
   * and nothing is sent; nor is anything for no rows.
   */
  lemma BatchGoesOut(opCode: Int64, id: Int64, schema: TableSchema, cols: seq<TableColumn>, rows: seq<Row>,
                     world: Call, tuples: seq<Outcome<seq<Byte>>>, r: Outcome<()>,
                     before: Connection, after: Connection)
    requires BatchOutcome(opCode, id, schema, cols, rows, world, tuples, r, before, after)
    requires forall i :: 0 <= i < |rows| ==> DistinctNames(rows[i])
    ensures if forall i :: 0 <= i < |rows| ==> TupleOf(cols, rows[i]).Ok?
            then |tuples| == |rows| && forall i :: 0 <= i < |tuples| ==> tuples[i] == TupleOf(cols, rows[i])
            else r.Err? && after == before
    ensures rows == [] ==> r == Ok(()) && after == before
    ensures rows != [] && (forall i :: 0 <= i < |rows| ==> TupleOf(cols, rows[i]).Ok?) ==>
              if world.writeFails then after == before else |after.written| == |before.written| + 1
  {
    forall i | 0 <= i < |tuples| ensures tuples[i] == TupleOf(cols, rows[i]) {
      TupleIsDetermined(cols, rows[i], tuples[i]);
    }
  }
}
