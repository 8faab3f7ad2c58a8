/** Statements, and the pure rules of coercion, equality and indexing. */
module SqlModel {
  import opened Core
  import opened CatalogModel
  import opened IndexModel
  import opened RowCodec
  import opened DbModel

  datatype Projection = All | Columns(names: seq<Core.Text>)

  datatype Selection = Selection(column: Core.Text, value: Value)

  datatype Statement =
    | CreateTable(name: Core.Text, columns: seq<ColumnDef>)
    | Insert(table: Core.Text, values: seq<Value>)
    | CreateIndex(name: Core.Text, table: Core.Text, column: Core.Text)
    | Select(projection: Projection, table: Core.Text, selection: Option<Selection>)

  datatype ExecResult =
    | StatementComplete(rowsAffected: nat)
    | Query(columns: seq<ColumnDef>, rows: seq<seq<Value>>)

  /** What the engine asks of floating point, over the eight bytes of a double. */
  datatype Floats = Floats(equal: (u64, u64) -> bool, ofInteger: i64 -> u64)

  const INT: Core.Text := [0x49, 0x4E, 0x54]
  const INTEGER: Core.Text := [0x49, 0x4E, 0x54, 0x45, 0x47, 0x45, 0x52]
  const TEXT: Core.Text := [0x54, 0x45, 0x58, 0x54]
  const DOUBLE: Core.Text := [0x44, 0x4F, 0x55, 0x42, 0x4C, 0x45]
  const REAL: Core.Text := [0x52, 0x45, 0x41, 0x4C]
  const FLOAT: Core.Text := [0x46, 0x4C, 0x4F, 0x41, 0x54]

  function CoerceValue(floats: Floats, typeName: Core.Text, v: Value): Result<Value> {
    if v.Null? then Ok(v)
    else if typeName == INT || typeName == INTEGER then if v.Integer? then Ok(v) else Err(User)
    else if typeName == TEXT then if v.Text? then Ok(v) else Err(User)
    else if typeName == DOUBLE || typeName == REAL || typeName == FLOAT then
      match v
      case Double(_) => Ok(v)
      case Integer(value) => Ok(Double(floats.ofInteger(value)))
      case _ => Err(User)
    else Err(User)
  }

  predicate Indexable(typeName: Core.Text) {
    typeName == INT || typeName == INTEGER || typeName == TEXT
  }

  function IndexKeyOf(v: Value): Option<IndexKey> {
    match v
    case Null => None
    case Integer(value) => Some(IndexKey.Integer(value))
    case Text(text) => Some(IndexKey.Text(text))
    case Double(_) => None
  }

  /** Integers and texts have a key, which tells them apart; NULL and doubles have none. */
  lemma KeysExact(a: Value, b: Value)
    ensures IndexKeyOf(a).Some? <==> a.Integer? || a.Text?
    ensures IndexKeyOf(a).Some? ==> (IndexKeyOf(a) == IndexKeyOf(b) <==> a == b)
    ensures a.Integer? ==> IndexKeyOf(a) == Some(IndexKey.Integer(a.value))
  {
  }

  predicate SqlEqual(floats: Floats, a: Value, b: Value) {
    match (a, b)
    case (Null, Null) => true
    case (Integer(x), Integer(y)) => x == y
    case (Text(x), Text(y)) => x == y
    case (Double(x), Double(y)) => floats.equal(x, y)
    case (Double(x), Integer(y)) => floats.equal(x, floats.ofInteger(y))
    case (Integer(x), Double(y)) => floats.equal(floats.ofInteger(x), y)
    case _ => false
  }

  /** What a stored value of a column may be. */
  predicate Typed(typeName: Core.Text, v: Value) {
    && (typeName == INT || typeName == INTEGER ==> v.Null? || v.Integer?)
    && (typeName == TEXT ==> v.Null? || v.Text?)
  }

  predicate RowTyped(columns: seq<ColumnDef>, vs: seq<Value>) {
    |vs| == |columns| && forall i :: 0 <= i < |vs| ==> Typed(columns[i].typeName, vs[i])
  }

  /** Every row decodes to values of its table's columns. */
  ghost predicate AllRowsTyped(columns: seq<ColumnDef>, rows: seq<HeapRow>) {
    forall i :: 0 <= i < |rows| ==> ParseRow(rows[i].bytes).Some? && RowTyped(columns, ParseRow(rows[i].bytes).value)
  }

  lemma CoercedIsTyped(floats: Floats, typeName: Core.Text, v: Value)
    requires CoerceValue(floats, typeName, v).Ok?
    ensures Typed(typeName, CoerceValue(floats, typeName, v).value)
  {
  }

  /** On an indexable column, a literal with a key equals exactly the stored values with that key. */
  lemma EqualMeansSameKey(floats: Floats, typeName: Core.Text, stored: Value, literal: Value)
    requires Indexable(typeName) && Typed(typeName, stored) && IndexKeyOf(literal).Some?
    ensures SqlEqual(floats, stored, literal) <==> IndexKeyOf(stored) == IndexKeyOf(literal)
  {
  }

  // Rows and their index entries

  /** The entry a row has in an index on column `column`, if any. */
  function KeyOfRow(row: HeapRow, column: nat): Option<IndexKey> {
    match ParseRow(row.bytes)
    case None => None
    case Some(vs) => if column < |vs| then IndexKeyOf(vs[column]) else None
  }

  function EntriesOf(rows: seq<HeapRow>, column: nat): seq<IndexEntry> {
    if rows == [] then []
    else EntryOf(rows[0], column) + EntriesOf(rows[1..], column)
  }

  function EntryOf(row: HeapRow, column: nat): seq<IndexEntry> {
    var key := KeyOfRow(row, column);
    if key.Some? then [IndexEntry(key.value, row.rowId)] else []
  }

  lemma {:induction false} EntriesConcat(a: seq<HeapRow>, b: seq<HeapRow>, column: nat)
    ensures EntriesOf(a + b, column) == EntriesOf(a, column) + EntriesOf(b, column)
  {
    hide KeyOfRow, EntryOf;
    if a == [] {
      assert a + b == b;
    } else {
      EntriesConcat(a[1..], b, column);
      assert (a + b)[0] == a[0] && (a + b)[1..] == a[1..] + b;
      var first := EntryOf(a[0], column);
      assert first + (EntriesOf(a[1..], column) + EntriesOf(b, column))
          == first + EntriesOf(a[1..], column) + EntriesOf(b, column);
    }
  }

  lemma EntriesOne(row: HeapRow, column: nat)
    ensures EntriesOf([row], column) == EntryOf(row, column)
  {
    assert [row][1..] == [];
    assert EntriesOf([row], column) == EntryOf(row, column) + EntriesOf([], column);
  }
}
