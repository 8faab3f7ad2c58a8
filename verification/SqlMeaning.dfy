/** What a database holds, as named tables of rows, and what each statement does to it. Nothing here looks at how the
statements are carried out. */
module SqlMeaning {
  import opened Core
  import opened CatalogModel
  import opened PageModel
  import opened BTreeHeap
  import opened DbModel
  import opened HeapOps
  import opened IndexOps
  import opened RowCodec
  import opened SqlModel
  import opened SqlInvariant

  /** A table's columns and its rows, in no order. */
  datatype TableView = TableView(columns: seq<ColumnDef>, rows: multiset<seq<Value>>)

  datatype IndexView = IndexView(table: Core.Text, column: Core.Text)

  datatype Db = Db(tables: imap<Core.Text, TableView>, indexes: imap<Core.Text, IndexView>)

  // What a page map and its catalog hold

  function RowValues(rows: seq<HeapRow>): seq<seq<Value>> {
    if rows == [] then []
    else (match ParseRow(rows[0].bytes) case None => [] case Some(vs) => [vs]) + RowValues(rows[1..])
  }

  ghost function TableNamed(m: PageMap, c: Catalog, name: Core.Text): Option<TableView> {
    match RelationByName(c, name)
    case None => None
    case Some(r) =>
      if r.kind == Table then Some(TableView(r.columns, multiset(RowValues(Rows(m, c, r.id))))) else None
  }

  ghost function IndexNamed(c: Catalog, name: Core.Text): Option<IndexView> {
    match RelationByName(c, name)
    case None => None
    case Some(r) =>
      if r.storage.BPlusTree? && RelationById(c, r.storage.tableId).Some?
      then Some(IndexView(RelationById(c, r.storage.tableId).value.name, r.storage.columnName))
      else None
  }

  ghost function Meaning(m: PageMap, c: Catalog): Db {
    Db(imap name: Core.Text | TableNamed(m, c, name).Some? :: TableNamed(m, c, name).value,
       imap name: Core.Text | IndexNamed(c, name).Some? :: IndexNamed(c, name).value)
  }

  /** The database a page map holds: its catalog is on page 0. */
  ghost function DbOf(m: PageMap): Db {
    if CATALOG_PAGE_ID in m && m[CATALOG_PAGE_ID].CatalogPage? then Meaning(m, m[CATALOG_PAGE_ID].catalog)
    else Db(imap[], imap[])
  }

  // What a stored value is

  /** What a column of a type stores for a value it is given; a value it does not take has no such thing. */
  ghost predicate StoresAs(floats: Floats, typeName: Core.Text, given: Value, stored: Value) {
    || (given == Null && stored == Null)
    || ((typeName == INT || typeName == INTEGER) && given.Integer? && stored == given)
    || (typeName == TEXT && given.Text? && stored == given)
    || ((typeName == DOUBLE || typeName == REAL || typeName == FLOAT) &&
        ((given.Double? && stored == given) || (given.Integer? && stored == Double(floats.ofInteger(given.value)))))
  }

  ghost predicate RowStoresAs(floats: Floats, columns: seq<ColumnDef>, given: seq<Value>, row: seq<Value>) {
    |given| == |columns| == |row| && forall i :: 0 <= i < |row| ==> StoresAs(floats, columns[i].typeName, given[i], row[i])
  }

  // What a query answers

  function AsDouble(floats: Floats, v: Value): Option<u64> {
    match v
    case Integer(value) => Some(floats.ofInteger(value))
    case Double(bits) => Some(bits)
    case _ => None
  }

  /** Equal as they stand, NULL to NULL included, or as doubles once one of them is a double. */
  ghost predicate EqualValues(floats: Floats, a: Value, b: Value) {
    || (a == b && !a.Double?)
    || ((a.Double? || b.Double?) && AsDouble(floats, a).Some? && AsDouble(floats, b).Some?
        && floats.equal(AsDouble(floats, a).value, AsDouble(floats, b).value))
  }

  /** `p` is the first column of that name. */
  ghost predicate IsColumn(columns: seq<ColumnDef>, name: Core.Text, p: nat) {
    p < |columns| && columns[p].name == name && forall q :: 0 <= q < p ==> columns[q].name != name
  }

  /** `item` stands under the column of that name. */
  ghost predicate Under<T(!new)>(columns: seq<ColumnDef>, name: Core.Text, items: seq<T>, item: T) {
    exists p: nat :: IsColumn(columns, name, p) && p < |items| && items[p] == item
  }

  /** `picked` are the items under the projected columns, in the order asked for. */
  ghost predicate Picks<T(!new)>(columns: seq<ColumnDef>, projection: Projection, items: seq<T>, picked: seq<T>) {
    match projection
    case All => picked == items
    case Columns(names) => |picked| == |names| && forall j :: 0 <= j < |names| ==> Under(columns, names[j], items, picked[j])
  }

  ghost predicate Passes(floats: Floats, columns: seq<ColumnDef>, selection: Option<Selection>, row: seq<Value>) {
    selection.Some? ==>
      exists v :: Under(columns, selection.value.column, row, v) && EqualValues(floats, v, selection.value.value)
  }

  /** The rows that pass, each as often as the table holds it. */
  ghost predicate Kept(floats: Floats, table: TableView, selection: Option<Selection>, kept: seq<seq<Value>>) {
    forall row :: multiset(kept)[row] == if Passes(floats, table.columns, selection, row) then table.rows[row] else 0
  }

  ghost predicate AllPick(columns: seq<ColumnDef>, projection: Projection, kept: seq<seq<Value>>, rows: seq<seq<Value>>) {
    |rows| == |kept| && forall k :: 0 <= k < |rows| ==> Picks(columns, projection, kept[k], rows[k])
  }

  /** The headers are the projected columns, and the rows the projections of those that pass, in some order. */
  ghost predicate Answers(
      floats: Floats, table: TableView, projection: Projection, selection: Option<Selection>, columns: seq<ColumnDef>,
      rows: seq<seq<Value>>)
  {
    && Picks(table.columns, projection, table.columns, columns)
    && exists kept :: Kept(floats, table, selection, kept) && AllPick(table.columns, projection, kept, rows)
  }

  /** Every column a SELECT names is one of the table's. */
  ghost predicate Resolves(columns: seq<ColumnDef>, projection: Projection, selection: Option<Selection>) {
    && (projection.Columns? ==> forall j :: 0 <= j < |projection.names| ==> HasColumn(columns, projection.names[j]))
    && (selection.Some? ==> HasColumn(columns, selection.value.column))
  }

  // What a statement does

  ghost predicate Unused(db: Db, name: Core.Text) {
    name !in db.tables && name !in db.indexes
  }

  ghost predicate TableMade(db: Db, db': Db, name: Core.Text, columns: seq<ColumnDef>) {
    Unused(db, name) && db' == db.(tables := db.tables[name := TableView(columns, multiset{})])
  }

  ghost predicate RowAdded(db: Db, db': Db, table: Core.Text, row: seq<Value>) {
    && table in db.tables
    && db' == db.(tables := db.tables[table := TableView(db.tables[table].columns, db.tables[table].rows + multiset{row})])
  }

  ghost predicate IndexMade(db: Db, db': Db, name: Core.Text, table: Core.Text, column: Core.Text) {
    && Unused(db, name) && table in db.tables && HasColumn(db.tables[table].columns, column)
    && db' == db.(indexes := db.indexes[name := IndexView(table, column)])
  }

  /** One statement took `db` to `db'` with result `r`. */
  ghost predicate Does(floats: Floats, statement: Statement, db: Db, db': Db, r: Result<ExecResult>) {
    if r.Err? then db' == db
    else
      match statement
      case CreateTable(name, columns) => r.value == StatementComplete(0) && TableMade(db, db', name, columns)
      case Insert(table, values) =>
        && r.value == StatementComplete(1) && table in db.tables
        && exists row :: RowStoresAs(floats, db.tables[table].columns, values, row) && RowAdded(db, db', table, row)
      case CreateIndex(name, table, column) => r.value == StatementComplete(0) && IndexMade(db, db', name, table, column)
      case Select(projection, table, selection) =>
        && db' == db && r.value.Query? && table in db.tables && Resolves(db.tables[table].columns, projection, selection)
        && Answers(floats, db.tables[table], projection, selection, r.value.columns, r.value.rows)
  }

  lemma RefusedDoes(floats: Floats, statement: Statement, db: Db)
    ensures forall error :: Does(floats, statement, db, db, Err(error))
  {
  }

  // The rules of coercion and equality mean that

  /** Coercion gives exactly what the column stores, or User. */
  lemma CoercionExact(floats: Floats, typeName: Core.Text, given: Value)
    ensures forall stored :: StoresAs(floats, typeName, given, stored) <==> CoerceValue(floats, typeName, given) == Ok(stored)
    ensures CoerceValue(floats, typeName, given).Err? ==> CoerceValue(floats, typeName, given) == Err(User)
  {
    TypesDiffer();
  }

  lemma TypesDiffer()
    ensures INT != TEXT && INTEGER != TEXT && DOUBLE != TEXT && REAL != TEXT && FLOAT != TEXT
    ensures INT !in [DOUBLE, REAL, FLOAT] && INTEGER !in [DOUBLE, REAL, FLOAT]
  {
    assert |INT| == 3 && |INTEGER| == 7 && |DOUBLE| == 6 && |FLOAT| == 5;
    assert TEXT[0] == 0x54 && REAL[0] == 0x52;
  }

  lemma EqualityExact(floats: Floats, a: Value, b: Value)
    ensures SqlEqual(floats, a, b) <==> EqualValues(floats, a, b)
  {
  }

  // How the database moves

  lemma SameNamed(c: Catalog, c': Catalog, name: Core.Text)
    requires SchemaKept(c, c')
    ensures RelationByName(c, name).None? <==> RelationByName(c', name).None?
    ensures RelationByName(c, name).Some? ==> SameSchema(RelationByName(c, name).value, RelationByName(c', name).value)
  {
    hide Utf8;
    var i, j := FindName(c.relations, name), FindName(c'.relations, name);
    assert i < |c.relations| ==> SameSchema(c.relations[i], c'.relations[i]);
    assert j < |c.relations| ==> SameSchema(c.relations[j], c'.relations[j]);
  }

  lemma SameIndexes(c: Catalog, c': Catalog, name: Core.Text)
    requires SchemaKept(c, c')
    ensures IndexNamed(c', name) == IndexNamed(c, name)
  {
    hide Utf8, FindId, FindName, SchemaKept;
    SameNamed(c, c', name);
    if RelationByName(c, name).Some? && RelationByName(c, name).value.storage.BPlusTree? {
      LookupKept(c, c', RelationByName(c, name).value.storage.tableId);
    }
  }

  /** Pages and roots may move: the database is the same while names, columns and rows are. */
  lemma MeaningKept(m: PageMap, c: Catalog, m': PageMap, c': Catalog)
    requires SchemaKept(c, c') && RowsKept(m, c, m', c')
    ensures Meaning(m', c') == Meaning(m, c)
  {
    hide Utf8, FindId, FindName, SchemaKept, Rows, RowValues;
    forall name: Core.Text
      ensures TableNamed(m', c', name) == TableNamed(m, c, name) && IndexNamed(c', name) == IndexNamed(c, name)
    {
      SameNamed(c, c', name);
      SameIndexes(c, c', name);
    }
  }

  ghost predicate SameTables(m: PageMap, c: Catalog, m': PageMap, c': Catalog, except: Option<Core.Text>) {
    forall name: Core.Text :: Some(name) != except ==> TableNamed(m', c', name) == TableNamed(m, c, name)
  }

  ghost predicate SameIndexesBut(c: Catalog, c': Catalog, except: Option<Core.Text>) {
    forall name: Core.Text :: Some(name) != except ==> IndexNamed(c', name) == IndexNamed(c, name)
  }

  lemma TablesUpdated(m: PageMap, c: Catalog, m': PageMap, c': Catalog, name: Core.Text, view: TableView)
    requires SameTables(m, c, m', c', Some(name)) && SameIndexesBut(c, c', None)
    requires TableNamed(m', c', name) == Some(view)
    ensures var db := Meaning(m, c); Meaning(m', c') == db.(tables := db.tables[name := view])
  {
    hide Utf8, TableNamed, IndexNamed;
    var db := Meaning(m, c);
    assert Meaning(m', c').tables == db.tables[name := view];
    assert Meaning(m', c').indexes == db.indexes;
  }

  lemma IndexesUpdated(m: PageMap, c: Catalog, m': PageMap, c': Catalog, name: Core.Text, view: IndexView)
    requires SameTables(m, c, m', c', None) && SameIndexesBut(c, c', Some(name))
    requires IndexNamed(c', name) == Some(view)
    ensures var db := Meaning(m, c); Meaning(m', c') == db.(indexes := db.indexes[name := view])
  {
    hide Utf8, TableNamed, IndexNamed;
    var db := Meaning(m, c);
    assert Meaning(m', c').tables == db.tables;
    assert Meaning(m', c').indexes == db.indexes[name := view];
  }

  lemma AddedIndexes(c: Catalog, c': Catalog, r: RelationInfo, name: Core.Text)
    requires NamesInv(c) && IndexInv(c, r) && Added(c, c', r) && !NameTaken(c, r.name) && name != r.name
    ensures IndexNamed(c', name) == IndexNamed(c, name)
  {
    hide Utf8, FindId;
    AddedLookups(c, c', r);
    AddedNames(c, c', r);
    if RelationByName(c, name).Some? {
      assert IndexInv(c, RelationByName(c, name).value);
    }
  }

  lemma AddedTables(m: PageMap, c: Catalog, m': PageMap, c': Catalog, r: RelationInfo, name: Core.Text)
    requires NamesInv(c) && Added(c, c', r) && !NameTaken(c, r.name) && name != r.name
    requires OtherRowsKept(m, c, m', c', r.id)
    ensures TableNamed(m', c', name) == TableNamed(m, c, name)
  {
    hide Utf8, FindId, Rows, RowValues;
    AddedLookups(c, c', r);
    if RelationByName(c, name).Some? {
      assert RelationByName(c, name).value.id < c.nextRelationId;
    }
  }

  /** A relation added as an empty table. */
  lemma MeaningTable(m: PageMap, c: Catalog, m': PageMap, c': Catalog, r: RelationInfo)
    requires NamesInv(c) && Added(c, c', r) && !NameTaken(c, r.name) && r.kind == Table && r.storage.Heap?
    requires OtherRowsKept(m, c, m', c', r.id) && Rows(m', c', r.id) == []
    ensures TableMade(Meaning(m, c), Meaning(m', c'), r.name, r.columns)
  {
    hide Utf8, FindId, FindName, Rows, NamesInv, NameTaken, Added, OtherRowsKept, RelationByName, RelationById;
    AddedLookups(c, c', r);
    assert IndexInv(c, r);
    forall name: Core.Text | name != r.name
      ensures TableNamed(m', c', name) == TableNamed(m, c, name) && IndexNamed(c', name) == IndexNamed(c, name)
    {
      AddedIndexes(c, c', r, name);
      AddedTables(m, c, m', c', r, name);
    }
    TablesUpdated(m, c, m', c', r.name, TableView(r.columns, multiset{}));
  }

  /** A relation added as an index on a table. */
  lemma MeaningIndex(m: PageMap, c: Catalog, m': PageMap, c': Catalog, r: RelationInfo, table: RelationInfo)
    requires NamesInv(c) && Added(c, c', r) && !NameTaken(c, r.name) && r.kind == Index && r.storage.BPlusTree?
    requires RelationByName(c, table.name) == Some(table) && RelationById(c, table.id) == Some(table)
    requires table.kind == Table && r.storage.tableId == table.id && HasColumn(table.columns, r.storage.columnName)
    requires RowsKept(m, c, m', c')
    ensures IndexMade(Meaning(m, c), Meaning(m', c'), r.name, table.name, r.storage.columnName)
  {
    hide Utf8, FindId, FindName, Rows, RowValues, NamesInv, NameTaken, Added, RelationByName, RelationById, HasColumn;
    NewIndexNamed(c, c', r, table);
    AddedLookups(c, c', r);
    forall name: Core.Text | name != r.name
      ensures TableNamed(m', c', name) == TableNamed(m, c, name) && IndexNamed(c', name) == IndexNamed(c, name)
    {
      AddedIndexes(c, c', r, name);
      AddedTables(m, c, m', c', r, name);
    }
    IndexesUpdated(m, c, m', c', r.name, IndexView(table.name, r.storage.columnName));
    assert TableNamed(m, c, table.name).Some?;
  }

  lemma NewIndexNamed(c: Catalog, c': Catalog, r: RelationInfo, table: RelationInfo)
    requires NamesInv(c) && Added(c, c', r) && !NameTaken(c, r.name) && r.storage.BPlusTree?
    requires RelationById(c, table.id) == Some(table)
    requires table.kind == Table && r.storage.tableId == table.id && HasColumn(table.columns, r.storage.columnName)
    ensures IndexInv(c, r) && IndexNamed(c', r.name) == Some(IndexView(table.name, r.storage.columnName))
  {
    hide Utf8, FindId;
    assert FindColumn(table.columns, r.storage.columnName) < |table.columns|;
    assert IndexInv(c, r);
    AddedLookups(c, c', r);
    AddedNames(c, c', r);
    assert table.id < c.nextRelationId;
  }

  lemma {:induction false} RowValuesConcat(a: seq<HeapRow>, b: seq<HeapRow>)
    ensures RowValues(a + b) == RowValues(a) + RowValues(b)
  {
    hide ParseRow;
    if a == [] {
      assert a + b == b;
    } else {
      RowValuesConcat(a[1..], b);
      assert (a + b)[0] == a[0] && (a + b)[1..] == a[1..] + b;
    }
  }

  lemma RowValuesSingle(row: HeapRow, values: seq<Value>)
    requires ParseRow(row.bytes) == Some(values)
    ensures RowValues([row]) == [values]
  {
    assert RowValues([row]) == [values] + RowValues([row][1..]);
  }

  lemma MultisetMiddle<T(!new)>(a: seq<T>, x: T, b: seq<T>)
    ensures multiset(a + [x] + b) == multiset(a + b) + multiset{x}
  {
  }

  lemma RowValuesOneMore(before: seq<HeapRow>, after: seq<HeapRow>, row: HeapRow, values: seq<Value>)
    requires OneMore(before, after, row) && ParseRow(row.bytes) == Some(values)
    ensures multiset(RowValues(after)) == multiset(RowValues(before)) + multiset{values}
  {
    hide ParseRow, RowValues, Utf8;
    var i :| 0 <= i <= |before| && after == before[..i] + [row] + before[i..];
    var a, b := before[..i], before[i..];
    assert before == a + b;
    RowValuesConcat(a + [row], b);
    RowValuesConcat(a, [row]);
    RowValuesConcat(a, b);
    RowValuesSingle(row, values);
    MultisetMiddle(RowValues(a), values, RowValues(b));
  }

  lemma NamedApart(c: Catalog, a: Core.Text, b: Core.Text)
    requires NamesInv(c) && RelationByName(c, a).Some? && RelationByName(c, b).Some?
    ensures RelationByName(c, a).value.id == RelationByName(c, b).value.id ==> a == b
  {
    var i, j := FindName(c.relations, a), FindName(c.relations, b);
    assert i != j ==> c.relations[i].id != c.relations[j].id;
  }

  /** One more row in one table. */
  lemma MeaningRow(m: PageMap, c: Catalog, m': PageMap, c': Catalog, table: Core.Text, row: HeapRow, values: seq<Value>)
    requires NamesInv(c) && SchemaKept(c, c') && RelationByName(c, table).Some?
    requires var r := RelationByName(c, table).value;
      && r.kind == Table && OtherRowsKept(m, c, m', c', r.id)
      && OneMore(Rows(m, c, r.id), Rows(m', c', r.id), row)
    requires ParseRow(row.bytes) == Some(values)
    ensures RowAdded(Meaning(m, c), Meaning(m', c'), table, values)
  {
    hide Utf8, FindId, FindName, SchemaKept, Rows, RowValues, NamesInv, OneMore, ParseRow, RelationByName;
    var r := RelationByName(c, table).value;
    RowValuesOneMore(Rows(m, c, r.id), Rows(m', c', r.id), row, values);
    SameNamed(c, c', table);
    forall name: Core.Text
      ensures name != table ==> TableNamed(m', c', name) == TableNamed(m, c, name)
      ensures IndexNamed(c', name) == IndexNamed(c, name)
    {
      SameNamed(c, c', name);
      SameIndexes(c, c', name);
      if RelationByName(c, name).Some? {
        NamedApart(c, name, table);
      }
    }
    var view := TableNamed(m, c, table).value;
    TablesUpdated(m, c, m', c', table, TableView(view.columns, view.rows + multiset{values}));
  }
}
