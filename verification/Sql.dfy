/** Statement execution over the transactional store. */
module Sql {
  import opened Core
  import opened CatalogModel
  import opened IndexModel
  import opened PageModel
  import opened BTreeModel
  import opened BTreeHeap
  import opened BTreeTheorems
  import opened BTreeSpace
  import opened DbModel
  import opened HeapOps
  import opened HeapReads
  import opened IndexOps
  import opened RowCodec
  import opened StagedStore
  import opened CommitLog
  import opened Transactions
  import opened SqlModel
  import opened SqlInvariant
  import opened SqlSteps
  import opened SqlMeaning
  import opened SqlRoom

  /** A store in order whose indexes agree with its tables. */
  ghost predicate Serving(store: TransactionalStore)
    reads store, store.disk
  {
    store.Valid() && store.Consistent() && SqlInv(store.disk.data, store.catalog, store.forest)
  }

  /** Nothing committed has changed. */
  twostate predicate Unchanged(store: TransactionalStore)
    reads store, store.disk
  {
    && store.history == old(store.history) && store.disk.data == old(store.disk.data)
    && store.catalog == old(store.catalog) && store.forest == old(store.forest)
    && store.activeWriter == old(store.activeWriter)
  }

  /** One commit, of the database the store now holds. */
  twostate predicate OneCommit(store: TransactionalStore)
    reads store, store.disk
  {
    store.history == old(store.history) + [store.disk.data] && !old(store.activeWriter) && !store.activeWriter
  }

  /** The database committed. */
  ghost function Held(store: TransactionalStore): Db
    reads store, store.disk
  {
    DbOf(store.disk.data)
  }

  /** A write transaction can begin. */
  ghost predicate Ready(store: TransactionalStore)
    reads store
  {
    !store.activeWriter && store.nextTxId < U64_MAX
  }

  lemma HeldIs(store: TransactionalStore)
    requires Serving(store)
    ensures Held(store) == Meaning(store.disk.data, store.catalog)
  {
    hide SqlInv, DbInv, Storable, TransactionalStore.Valid;
  }

  /** The staged database keeps the SQL invariant but for the indexes in `lag`. */
  ghost predicate Staying(tx: Transaction, lag: Lag)
    reads tx, tx.pages, tx.manager, tx.manager.disk
  {
    && tx.Sound()
    && Agree(tx.pages.View(), tx.pages.catalog, tx.forest, lag)
    && AllTyped(tx.pages.View(), tx.pages.catalog)
  }

  function CoerceValues(floats: Floats, columns: seq<ColumnDef>, values: seq<Value>): Result<seq<Value>>
    decreases |values|
  {
    if |columns| != |values| then Err(User)
    else if values == [] then Ok([])
    else
      match CoerceValue(floats, columns[0].typeName, values[0])
      case Err(error) => Err(error)
      case Ok(first) =>
        var rest := CoerceValues(floats, columns[1..], values[1..]);
        if rest.Err? then rest else Ok([first] + rest.value)
  }

  /** Coerced values have the types of their columns. */
  lemma {:induction false} CoercedRowTyped(floats: Floats, columns: seq<ColumnDef>, values: seq<Value>)
    requires CoerceValues(floats, columns, values).Ok?
    ensures RowTyped(columns, CoerceValues(floats, columns, values).value)
    decreases |values|
  {
    hide Utf8, Typed, CoerceValue;
    if values != [] {
      CoercedIsTyped(floats, columns[0].typeName, values[0]);
      CoercedRowTyped(floats, columns[1..], values[1..]);
      var rest := CoerceValues(floats, columns[1..], values[1..]).value;
      forall i | 1 <= i < |values| ensures Typed(columns[i].typeName, CoerceValues(floats, columns, values).value[i]) {
        assert Typed(columns[1..][i - 1].typeName, rest[i - 1]);
      }
    }
  }

  /** What INSERT stores, when the table exists and takes the values. */
  function RowToStore(floats: Floats, c: Catalog, table: Core.Text, values: seq<Value>): Result<(RelationInfo, seq<Value>)> {
    match RelationByName(c, table)
    case None => Err(User)
    case Some(relation) =>
      match CoerceValues(floats, relation.columns, values)
      case Err(error) => Err(error)
      case Ok(coerced) => if Encodable(coerced) then Ok((relation, coerced)) else Err(User)
  }

  /** Coercion gives exactly the row the columns store, or User when there is none. */
  lemma {:induction false} CoercedExact(floats: Floats, columns: seq<ColumnDef>, values: seq<Value>, row: seq<Value>)
    ensures RowStoresAs(floats, columns, values, row) <==> CoerceValues(floats, columns, values) == Ok(row)
    ensures CoerceValues(floats, columns, values).Err? ==> CoerceValues(floats, columns, values) == Err(User)
    decreases |values|
  {
    hide Utf8, StoresAs, CoerceValue;
    if |columns| == |values| && values != [] {
      CoercionExact(floats, columns[0].typeName, values[0]);
      var tail := if row == [] then [] else row[1..];
      CoercedExact(floats, columns[1..], values[1..], tail);
      if |row| == |values| {
        assert row == [row[0]] + tail;
        StoresFirst(floats, columns, values, row);
      }
    }
  }

  lemma StoresFirst(floats: Floats, columns: seq<ColumnDef>, values: seq<Value>, row: seq<Value>)
    requires |columns| == |values| == |row| > 0
    ensures RowStoresAs(floats, columns, values, row) <==>
            StoresAs(floats, columns[0].typeName, values[0], row[0]) && RowStoresAs(floats, columns[1..], values[1..], row[1..])
  {
    hide Utf8, StoresAs;
    if RowStoresAs(floats, columns[1..], values[1..], row[1..]) && StoresAs(floats, columns[0].typeName, values[0], row[0]) {
      forall i | 1 <= i < |row| ensures StoresAs(floats, columns[i].typeName, values[i], row[i]) {
        assert columns[1..][i - 1] == columns[i] && values[1..][i - 1] == values[i] && row[1..][i - 1] == row[i];
      }
    }
  }

  /** What INSERT stores is the one row the table accepts for the values; it is refused with User when there is none. */
  lemma RowToStoreExact(floats: Floats, c: Catalog, table: Core.Text, values: seq<Value>)
    ensures match RowToStore(floats, c, table, values)
      case Err(error) => error == User && !Acceptable(c, floats, table, values)
      case Ok((relation, coerced)) =>
        && RelationByName(c, table) == Some(relation) && Accepted(c, floats, table, values, coerced)
        && Acceptable(c, floats, table, values)
        && forall row :: Accepted(c, floats, table, values, row) ==> row == coerced
  {
    hide Utf8, CoerceValues, RowStoresAs, Encodable, FindName;
    match RelationByName(c, table)
    case None =>
    case Some(relation) =>
      CoercedExact(floats, relation.columns, values, []);
      forall row
        ensures RowStoresAs(floats, relation.columns, values, row) <==> CoerceValues(floats, relation.columns, values) == Ok(row)
      {
        CoercedExact(floats, relation.columns, values, row);
      }
  }

  // A statement's transaction; an error drops it

  method Start(store: TransactionalStore) returns (r: Result<Transaction>)
    requires Serving(store)
    modifies store`nextTxId, store`activeWriter, store.disk`wal, store.disk`trace
    ensures Serving(store)
    ensures r.Ok? <==> old(Ready(store))
    ensures r.Err? ==> r.error == if old(store.activeWriter) then Retryable else User
    ensures r.Err? ==> store.activeWriter == old(store.activeWriter)
    ensures r.Ok? ==>
      var tx := r.value;
      && fresh(tx) && fresh(tx.pages) && tx.manager == store
      && Staying(tx, map[]) && tx.pages.View() == store.disk.data
      && tx.pages.catalog == store.catalog && tx.forest == store.forest
  {
    hide Agree, AllTyped, InOrder, TransactionalStore.Valid;
    r := store.Begin();
    if r.Ok? {
      assert r.value.pages.View() == store.disk.data;
    }
  }

  method Finish(tx: Transaction)
    requires Staying(tx, map[])
    modifies tx`state, tx.manager, tx.manager.disk
    ensures Serving(tx.manager) && !tx.manager.activeWriter
    ensures tx.manager.disk.data == old(tx.pages.View()) && tx.manager.catalog == tx.pages.catalog
    ensures tx.manager.forest == tx.forest
    ensures tx.manager.history == old(tx.manager.history) + [tx.manager.disk.data]
  {
    hide Agree, AllTyped, InOrder, TransactionalStore.Valid, ImageRecords, Ascending;
    tx.Commit();
  }

  method Abandon(tx: Transaction)
    requires tx.Open() && Serving(tx.manager)
    modifies tx.manager`activeWriter
    ensures Serving(tx.manager) && !tx.manager.activeWriter
  {
    hide Agree, AllTyped, InOrder, TransactionalStore.Valid;
    tx.Drop();
  }

  /** CREATE TABLE adds one empty table of those columns under that name, exactly when the name is free, the columns are
  in order and the catalog can take them. */
  method ExecuteCreateTable(store: TransactionalStore, name: Core.Text, columns: seq<ColumnDef>)
    returns (r: Result<ExecResult>)
    requires Serving(store)
    modifies store, store.disk
    ensures Serving(store)
    ensures r.Ok? <==> old(Ready(store)) && TableFits(old(store.catalog), name, columns)
    ensures r.Err? ==> r.error == (if old(store.activeWriter) then Retryable else User) && Unchanged(store)
    ensures r.Ok? ==>
      && r.value == StatementComplete(0) && OneCommit(store) && TableMade(old(Held(store)), Held(store), name, columns)
      && var relation := RelationInfo(old(store.catalog.nextRelationId), name, Table, Heap([old(store.catalog.nextPageId)]), columns);
      && Added(old(store.catalog), store.catalog, relation) && NewlyNamed(old(store.catalog), store.catalog, relation)
  {
    hide Agree, AllTyped, InOrder, HeapOps.CreateTable, TransactionalStore.Valid, Serving, Added, NewlyNamed, TableFits, Meaning,
      TableMade, DbOf, Storable, Utf8;
    ServingMeans(store);
    HeldIs(store);
    var begun := Start(store);
    match begun
    case Err(error) =>
      r := Err(error);
    case Ok(tx) =>
      ghost var m, c, forest := store.disk.data, store.catalog, store.forest;
      var created := tx.CreateTable(name, columns);
      match created
      case Err(error) =>
        Abandon(tx);
        r := Err(error);
      case Ok(_) =>
        TableCreatedHere(m, c, forest, name, columns);
        Finish(tx);
        HeldIs(store);
        r := Ok(StatementComplete(0));
  }

  lemma ServingMeans(store: TransactionalStore)
    requires Serving(store)
    ensures InOrder(store.disk.data, store.catalog, store.forest) && SqlInv(store.disk.data, store.catalog, store.forest)
    ensures Storable(store.catalog)
  {
  }

  lemma TableCreatedHere(m: PageMap, c: Catalog, forest: Forest, name: Core.Text, columns: seq<ColumnDef>)
    requires InOrder(m, c, forest) && SqlInv(m, c, forest)
    requires HeapOps.CreateTable(m, c, name, columns).result.Ok?
    ensures var s := HeapOps.CreateTable(m, c, name, columns);
      SqlInv(s.pages, s.catalog, forest) && TableMade(Meaning(m, c), Meaning(s.pages, s.catalog), name, columns)
  {
    hide SqlInv, RelationInv, Disjoint, Storable, TableFits, HeapOps.CreateTable, Meaning, TableMade, Rows;
    TableCreated(m, c, forest, name, columns);
    CreateTableExact(m, c, name, columns);
    CreateTableKeeps(m, c, forest, name, columns);
    var s := HeapOps.CreateTable(m, c, name, columns);
    FitsAllowed(c, name, columns);
    MeaningTable(m, c, s.pages, s.catalog, RelationInfo(c.nextRelationId, name, Table, Heap([c.nextPageId]), columns));
  }

  lemma FitsAllowed(c: Catalog, name: Core.Text, columns: seq<ColumnDef>)
    requires TableFits(c, name, columns)
    ensures !NameTaken(c, name)
  {
  }

  // INSERT

  /** Index `i` of the catalog, which lacks `row`, takes it in: one entry if the row has a key there, else none. */
  method IndexRow(
      tx: Transaction, indexId: RelationId, column: nat, values: seq<Value>, rowId: RowId,
      ghost i: nat, ghost row: HeapRow, ghost lag: Lag, ghost lag': Lag, ghost before: seq<HeapRow>, ghost after: seq<HeapRow>)
    returns (r: Result<()>)
    requires Staying(tx, lag)
    requires i < |tx.pages.catalog.relations| && tx.pages.catalog.relations[i].id == indexId
    requires tx.pages.catalog.relations[i].storage.BPlusTree?
    requires IndexedColumn(tx.pages.catalog, tx.pages.catalog.relations[i]) == column < |values|
    requires row.rowId == rowId && ParseRow(row.bytes) == Some(values)
    requires OneMore(before, after, row) && indexId in lag && lag[indexId] == before
    requires forall x :: x != indexId ==> (x in lag <==> x in lag') && (x in lag ==> lag'[x] == lag[x])
    requires IndexedRows(tx.pages.View(), tx.pages.catalog, lag', tx.pages.catalog.relations[i]) == after
    modifies tx.pages, tx`forest
    ensures tx.Open() && indexId in old(tx.forest)
    ensures var took := InsertAll(old(tx.forest)[indexId], EntryOf(row, column), old(tx.pages.catalog.nextPageId));
      && (r.Ok? <==> took.Ok?)
      && (r.Err? ==> r.error == User)
      && (r.Ok? ==> tx.forest == old(tx.forest)[indexId := took.value.tree] && tx.pages.catalog.nextPageId == took.value.free)
    ensures r.Ok? ==>
      && Staying(tx, lag')
      && SchemaKept(old(tx.pages.catalog), tx.pages.catalog)
      && RowsKept(old(tx.pages.View()), old(tx.pages.catalog), tx.pages.View(), tx.pages.catalog)
  {
    hide Utf8, Agree, AllTyped, InOrder, TransactionalStore.Valid, Contents, OneMore, ParseRow, FindId, InsertRoot, IndexedColumn,
      IndexedRows, SchemaKept, RowsKept, EntryOf, InsertAll;
    ghost var m, c, forest := tx.pages.View(), tx.pages.catalog, tx.forest;
    InOrderNames(m, c, forest, i);
    EntryOfValues(row, values, column);
    EntryTaken(m, c, forest, i, row, values, column);
    match IndexKeyOf(values[column])
    case None =>
      r := Ok(());
      NothingChanged(m, c);
      RowTaken(m, m, c, c, forest, forest, i, lag, lag', before, after, row);
    case Some(key) =>
      r := tx.InsertIndexEntry(indexId, key, rowId);
      if r.Ok? {
        ghost var grown := InsertRoot(forest[indexId], IndexEntry(key, rowId), c.nextPageId).value;
        RerootedSchema(c, i, grown.tree.page, grown.free);
        RowTaken(m, tx.pages.View(), c, tx.pages.catalog, forest, tx.forest, i, lag, lag', before, after, row);
      }
  }

  lemma InOrderNames(m: PageMap, c: Catalog, forest: Forest, i: nat)
    requires InOrder(m, c, forest) && i < |c.relations| && c.relations[i].storage.BPlusTree?
    ensures NamesInv(c) && FindId(c.relations, c.relations[i].id) == i && HasIndex(c, c.relations[i].id)
    ensures c.relations[i].id in forest
  {
    FindIdUnique(c.relations, i);
    IndexPlanted(m, c, forest, i);
  }

  /** What inserting the row's entry, if it has one, comes to. */
  lemma EntryTaken(m: PageMap, c: Catalog, forest: Forest, i: nat, row: HeapRow, values: seq<Value>, column: nat)
    requires InOrder(m, c, forest) && i < |c.relations| && c.relations[i].storage.BPlusTree?
    requires ParseRow(row.bytes) == Some(values) && column < |values|
    ensures var id := c.relations[i].id;
      id in forest && match IndexKeyOf(values[column])
      case None => InsertAll(forest[id], EntryOf(row, column), c.nextPageId) == Ok(Regrown(forest[id], c.nextPageId))
                   && forest == forest[id := forest[id]]
      case Some(key) =>
        var took := InsertRoot(forest[id], IndexEntry(key, row.rowId), c.nextPageId);
        InsertAll(forest[id], EntryOf(row, column), c.nextPageId) == took && (took.Err? ==> took == Err(User))
  {
    hide Utf8, ParseRow, FindId, InsertRoot, EntryOf, Planted, Balanced, Ordered;
    IndexPlanted(m, c, forest, i);
    EntryOfValues(row, values, column);
    var t := forest[c.relations[i].id];
    match IndexKeyOf(values[column])
    case None =>
    case Some(key) =>
      var e := IndexEntry(key, row.rowId);
      InsertAllOne(t, e, c.nextPageId);
      if InsertRoot(t, e, c.nextPageId).Err? {
        var h :| WellFormed(t, h);
        InsertAllErrorIsUser(t, h, [e], c.nextPageId);
      }
  }

  lemma EntryOfValues(row: HeapRow, values: seq<Value>, column: nat)
    requires ParseRow(row.bytes) == Some(values) && column < |values|
    ensures EntryOf(row, column) ==
      match IndexKeyOf(values[column])
      case None => []
      case Some(key) => [IndexEntry(key, row.rowId)]
  {
  }

  lemma RowTaken(
      m: PageMap, m': PageMap, c: Catalog, c': Catalog, forest: Forest, forest': Forest, i: nat, lag: Lag, lag': Lag,
      before: seq<HeapRow>, after: seq<HeapRow>, row: HeapRow)
    requires Agree(m, c, forest, lag) && AllTyped(m, c) && NamesInv(c) && SchemaKept(c, c') && RowsKept(m, c, m', c')
    requires i < |c.relations| && c.relations[i].storage.BPlusTree? && c.relations[i].id in forest
    requires c.relations[i].id in forest'
    requires forall x :: x in forest && x != c.relations[i].id ==> x in forest' && forest'[x] == forest[x]
    requires OneMore(before, after, row) && c.relations[i].id in lag && lag[c.relations[i].id] == before
    requires Contents(forest'[c.relations[i].id]) ==
             Contents(forest[c.relations[i].id]) + multiset(EntryOf(row, IndexedColumn(c, c.relations[i])))
    requires forall x :: x != c.relations[i].id ==> (x in lag <==> x in lag') && (x in lag ==> lag'[x] == lag[x])
    requires IndexedRows(m, c, lag', c.relations[i]) == after
    ensures Agree(m', c', forest', lag') && AllTyped(m', c')
  {
    hide Agree, AllTyped, Contents, OneMore, EntryOf, IndexedColumn, SchemaKept, NamesInv, Rows;
    TypedKept(m, m', c, c');
    CatchUp(m, m', c, c', forest, forest', i, lag, lag', before, after, row);
  }

  lemma NothingChanged(m: PageMap, c: Catalog)
    ensures SchemaKept(c, c) && RowsKept(m, c, m, c)
  {
  }

  /** Where the index at position `k` of a table's indexes stands in the catalog, and which column it is on. */
  lemma IndexPosition(c0: Catalog, c: Catalog, relation: RelationInfo, index: RelationInfo) returns (i: nat)
    requires index in IndexesOn(c0.relations, relation.id) && SchemaKept(c0, c)
    requires RelationById(c0, relation.id) == Some(relation)
    ensures i < |c.relations| && c.relations[i].id == index.id && c.relations[i].storage.BPlusTree?
    ensures IndexedColumn(c, c.relations[i]) == FindColumn(relation.columns, index.storage.columnName)
    ensures c.relations[i].storage.tableId == relation.id
  {
    hide FindId, FindColumn;
    i :| 0 <= i < |c0.relations| && c0.relations[i] == index;
    assert SameSchema(c0.relations[i], c.relations[i]);
    ColumnKept(c0, c, i);
  }

  lemma BehindStep(indexes: seq<RelationInfo>, k: nat, rows: seq<HeapRow>)
    requires k < |indexes| && DistinctIds(indexes)
    ensures var lag, lag' := Behind(indexes[k..], rows), Behind(indexes[k + 1..], rows);
      && indexes[k].id in lag && lag[indexes[k].id] == rows && indexes[k].id !in lag'
      && forall x :: x != indexes[k].id ==> (x in lag <==> x in lag') && (x in lag ==> lag'[x] == lag[x])
  {
    assert indexes[k..] == [indexes[k]] + indexes[k + 1..];
    assert indexes[k] in indexes[k..];
  }

  /** Every index of the table takes in the new row. */
  method IndexRowEverywhere(
      tx: Transaction, relation: RelationInfo, indexes: seq<RelationInfo>, values: seq<Value>, rowId: RowId,
      ghost c0: Catalog, ghost row: HeapRow, ghost before: seq<HeapRow>)
    returns (r: Result<()>)
    requires Staying(tx, Behind(indexes, before)) && SchemaKept(c0, tx.pages.catalog)
    requires indexes == IndexesOn(c0.relations, relation.id) && DistinctIds(indexes)
    requires RelationById(c0, relation.id) == Some(relation) && |values| == |relation.columns|
    requires row.rowId == rowId && ParseRow(row.bytes) == Some(values)
    requires OneMore(before, Rows(tx.pages.View(), tx.pages.catalog, relation.id), row)
    modifies tx.pages, tx`forest
    ensures tx.Open()
    ensures r.Ok? <==> TakeAll(old(tx.forest), indexes, relation.columns, row, old(tx.pages.catalog.nextPageId)).Ok?
    ensures r.Err? ==> r.error == User
    ensures r.Ok? ==>
      && Staying(tx, map[])
      && SchemaKept(c0, tx.pages.catalog)
      && RowsKept(old(tx.pages.View()), old(tx.pages.catalog), tx.pages.View(), tx.pages.catalog)
  {
    hide Staying, Transaction.Open, OneMore, ParseRow, FindId, FindColumn, IndexedColumn, SchemaKept, Rows, Behind, IndexesOn,
      DistinctIds, TakeAll, InsertAll, EntryOf, SameTrees, Utf8;
    StayingOpen(tx, Behind(indexes, before));
    ghost var m, c, after := tx.pages.View(), tx.pages.catalog, Rows(tx.pages.View(), tx.pages.catalog, relation.id);
    ghost var forest, free := tx.forest, tx.pages.catalog.nextPageId;
    assert indexes[0..] == indexes;
    NoTreeChanged(forest, indexes);
    for k := 0 to |indexes|
      invariant tx.Open()
      invariant Staying(tx, Behind(indexes[k..], before))
      invariant SchemaKept(c0, tx.pages.catalog)
      invariant RowsKept(m, c, tx.pages.View(), tx.pages.catalog)
      invariant SameTrees(forest, tx.forest, indexes[k..])
      invariant TakeAll(forest, indexes, relation.columns, row, free) ==
                TakeAll(forest, indexes[k..], relation.columns, row, tx.pages.catalog.nextPageId)
    {
      assert indexes[k] in indexes;
      ghost var i := IndexPosition(c0, tx.pages.catalog, relation, indexes[k]);
      var column := FindColumn(relation.columns, indexes[k].storage.columnName);
      if column == |relation.columns| {
        ColumnStands(tx, c0, relation, Behind(indexes[k..], before), i);
        assert false;
        return Err(User);
      }
      BehindStep(indexes, k, before);
      ghost var c1, forest1 := tx.pages.catalog, tx.forest;
      var taken := IndexRow(tx, indexes[k].id, column, values, rowId, i, row,
                            Behind(indexes[k..], before), Behind(indexes[k + 1..], before), before, after);
      TakeStep(forest, forest1, indexes, k, relation.columns, row, c1.nextPageId);
      if taken.Err? {
        return taken;
      }
      SchemaTransitive(c0, c1, tx.pages.catalog);
      TreesLeft(forest, forest1, tx.forest, indexes, k);
    }
    assert indexes[|indexes|..] == [];
    NoneBehind(before);
    NothingToTake(forest, relation.columns, row, tx.pages.catalog.nextPageId);
    r := Ok(());
  }

  /** The trees of these indexes are as they were. */
  ghost predicate SameTrees(forest: Forest, forest': Forest, indexes: seq<RelationInfo>) {
    forall i :: 0 <= i < |indexes| ==>
      && (indexes[i].id in forest <==> indexes[i].id in forest')
      && (indexes[i].id in forest ==> forest'[indexes[i].id] == forest[indexes[i].id])
  }

  lemma NoTreeChanged(forest: Forest, indexes: seq<RelationInfo>)
    ensures SameTrees(forest, forest, indexes)
  {
  }

  lemma NothingToTake(forest: Forest, columns: seq<ColumnDef>, row: HeapRow, free: u64)
    ensures TakeAll(forest, [], columns, row, free) == Ok(free)
  {
  }

  lemma TakeStep(
      forest: Forest, forest': Forest, indexes: seq<RelationInfo>, k: nat, columns: seq<ColumnDef>, row: HeapRow, free: u64)
    requires k < |indexes| && SameTrees(forest, forest', indexes[k..])
    requires indexes[k].id in forest' && indexes[k].storage.BPlusTree?
    ensures var entry := EntryOf(row, FindColumn(columns, indexes[k].storage.columnName));
      TakeAll(forest, indexes[k..], columns, row, free) ==
      match InsertAll(forest'[indexes[k].id], entry, free)
      case Err(error) => Err(error)
      case Ok(grown) => TakeAll(forest, indexes[k + 1..], columns, row, grown.free)
  {
    hide EntryOf, InsertAll;
    assert indexes[k..][0] == indexes[k] && indexes[k..][1..] == indexes[k + 1..];
  }

  lemma TreesLeft(forest: Forest, forest1: Forest, forest2: Forest, indexes: seq<RelationInfo>, k: nat)
    requires k < |indexes| && DistinctIds(indexes) && SameTrees(forest, forest1, indexes[k..])
    requires indexes[k].id in forest1 && indexes[k].id in forest2 && forest2 == forest1[indexes[k].id := forest2[indexes[k].id]]
    ensures SameTrees(forest, forest2, indexes[k + 1..])
  {
    var rest := indexes[k + 1..];
    assert forall i :: 0 <= i < |rest| ==> rest[i] == indexes[k..][i + 1] && rest[i].id != indexes[k].id;
  }

  /** An index stands on a column its table has. */
  lemma ColumnStands(tx: Transaction, c0: Catalog, relation: RelationInfo, lag: Lag, i: nat)
    requires Staying(tx, lag) && SchemaKept(c0, tx.pages.catalog) && i < |tx.pages.catalog.relations|
    requires tx.pages.catalog.relations[i].storage.BPlusTree?
    requires tx.pages.catalog.relations[i].storage.tableId == relation.id
    requires RelationById(c0, relation.id) == Some(relation)
    ensures IndexedColumn(tx.pages.catalog, tx.pages.catalog.relations[i]) < |relation.columns|
  {
    hide Agree, TransactionalStore.Valid, InOrder, FindId, FindColumn, TableTyped, SchemaKept;
    LookupKept(c0, tx.pages.catalog, relation.id);
    assert IndexTyped(tx.pages.catalog, tx.pages.catalog.relations[i]);
  }

  lemma StayingOpen(tx: Transaction, lag: Lag)
    requires Staying(tx, lag)
    ensures tx.Open()
  {
  }

  lemma NoneBehind(rows: seq<HeapRow>)
    ensures Behind([], rows) == map[]
  {
  }

  lemma InOrderReady(m: PageMap, c: Catalog, forest: Forest, id: RelationId)
    requires InOrder(m, c, forest)
    ensures ReadyFor(m, c, id)
  {
    DbReady(m, c, forest, id);
  }

  lemma InsertTarget(store: TransactionalStore, floats: Floats, table: Core.Text, values: seq<Value>)
    requires Serving(store) && RowToStore(floats, store.catalog, table, values).Ok?
    ensures var (relation, coerced) := RowToStore(floats, store.catalog, table, values).value;
      && RelationById(store.catalog, relation.id) == Some(relation)
      && Encodable(coerced) && RowTyped(relation.columns, coerced)
  {
    hide Agree, AllTyped, TransactionalStore.Valid, CoerceValues, Storable, Disjoint, RelationInv, Utf8;
    ByNameIsById(store.catalog, table);
    CoercedRowTyped(floats, RelationByName(store.catalog, table).value.columns, values);
  }

  lemma RowStoredHere(m: PageMap, c: Catalog, forest: Forest, relation: RelationInfo, values: seq<Value>)
    requires InOrder(m, c, forest) && SqlInv(m, c, forest) && RelationById(c, relation.id) == Some(relation)
    requires Encodable(values) && RowTyped(relation.columns, values)
    requires ReadyFor(m, c, relation.id) && HeapOps.InsertRow(m, c, relation.id, RowBytes(values)).result.Ok?
    ensures var s := HeapOps.InsertRow(m, c, relation.id, RowBytes(values));
      && DistinctIds(IndexesOn(c.relations, relation.id)) && ParseRow(RowBytes(values)) == Some(values)
      && SchemaKept(c, s.catalog)
      && AllTyped(s.pages, s.catalog)
      && Agree(s.pages, s.catalog, forest, Behind(IndexesOn(c.relations, relation.id), Rows(m, c, relation.id)))
      && OneMore(Rows(m, c, relation.id), Rows(s.pages, s.catalog, relation.id), HeapRow(s.result.value, RowBytes(values)))
      && OtherRowsKept(m, c, s.pages, s.catalog, relation.id)
  {
    hide SqlInv, RelationInv, Disjoint, RowBytes, ParseRow, Encodable, Rows, OneMore, Storable, FindId, RowTyped;
    IndexesOnDistinct(c.relations, relation.id);
    RowRoundTrip(values);
    InsertedIntoTable(m, c, relation.id, RowBytes(values));
    RowStored(m, c, forest, relation.id, values);
  }

  lemma InsertedIntoTable(m: PageMap, c: Catalog, id: RelationId, bytes: Bytes)
    requires ReadyFor(m, c, id) && HeapOps.InsertRow(m, c, id, bytes).result.Ok?
    ensures TableOf(c, id).Ok?
  {
  }

  /** Where the row goes, and whether its indexes take it there. */
  lemma RowGoesMeans(m: PageMap, c: Catalog, forest: Forest, relation: RelationInfo, values: seq<Value>)
    requires InOrder(m, c, forest) && RelationById(c, relation.id) == Some(relation)
    requires ReadyFor(m, c, relation.id)
    ensures var s := HeapOps.InsertRow(m, c, relation.id, RowBytes(values));
      if s.result.Err? then s.result == Err(User) && !RowGoes(m, c, forest, relation, values)
      else RowGoes(m, c, forest, relation, values) <==>
           TakeAll(forest, IndexesOn(c.relations, relation.id), relation.columns, HeapRow(s.result.value, RowBytes(values)),
                   s.catalog.nextPageId).Ok?
  {
    hide DbInv, RowBytes, Storable, FindId, HeapTakes, Placed, IndexesOn, TakeAll, HeapOps.InsertRow, RoomAmong;
    var s, bytes := HeapOps.InsertRow(m, c, relation.id, RowBytes(values)), RowBytes(values);
    InsertRowExact(m, c, forest, relation.id, bytes);
    if s.result.Ok? {
      var pages, rowId := relation.storage.pages, s.result.value;
      forall other | RowGoesAt(m, c, forest, relation, values, other) ensures other == rowId {
        PlacedOnce(m, pages, c.nextPageId, bytes, rowId, other);
      }
      assert RowGoes(m, c, forest, relation, values) <==> RowGoesAt(m, c, forest, relation, values, rowId);
    }
  }

  /** Store one typed row and index it. */
  method StoreRow(tx: Transaction, relation: RelationInfo, indexes: seq<RelationInfo>, values: seq<Value>)
    returns (r: Result<RowId>)
    requires Staying(tx, map[]) && RelationById(tx.pages.catalog, relation.id) == Some(relation)
    requires indexes == IndexesOn(tx.pages.catalog.relations, relation.id)
    requires Encodable(values) && RowTyped(relation.columns, values)
    modifies tx.pages, tx`forest
    ensures tx.Open()
    ensures r.Ok? <==> RowGoes(old(tx.pages.View()), old(tx.pages.catalog), old(tx.forest), relation, values)
    ensures r.Err? ==> r.error == User
    ensures r.Ok? ==>
      && Staying(tx, map[])
      && SchemaKept(old(tx.pages.catalog), tx.pages.catalog)
      && OtherRowsKept(old(tx.pages.View()), old(tx.pages.catalog), tx.pages.View(), tx.pages.catalog, relation.id)
      && OneMore(Rows(old(tx.pages.View()), old(tx.pages.catalog), relation.id),
                 Rows(tx.pages.View(), tx.pages.catalog, relation.id), HeapRow(r.value, RowBytes(values)))
  {
    hide Agree, AllTyped, InOrder, TransactionalStore.Valid, OneMore, SchemaKept, Rows, Behind, RowBytes, HeapOps.InsertRow,
      Typed, Encodable, IndexesOn, ParseRow, DistinctIds, FindId, RowGoes, TakeAll;
    ghost var m, c, forest := tx.pages.View(), tx.pages.catalog, tx.forest;
    InOrderReady(m, c, forest, relation.id);
    RowGoesMeans(m, c, forest, relation, values);
    var stored := tx.InsertRow(relation.id, RowBytes(values));
    match stored
    case Err(error) =>
      r := Err(error);
    case Ok(rowId) =>
      RowStoredHere(m, c, forest, relation, values);
      ghost var row := HeapRow(rowId, RowBytes(values));
      var indexed := IndexRowEverywhere(tx, relation, indexes, values, rowId, c, row, Rows(m, c, relation.id));
      r := if indexed.Ok? then Ok(rowId) else Err(indexed.error);
  }

  /** The accepted row's bytes are at that address, and no other table's rows have changed. */
  ghost predicate RowStoredAt(
      m: PageMap, c: Catalog, m': PageMap, c': Catalog, floats: Floats, table: Core.Text, values: seq<Value>, row: seq<Value>,
      rowId: RowId)
  {
    && Accepted(c, floats, table, values, row)
    && var id := RelationByName(c, table).value.id;
    && OtherRowsKept(m, c, m', c', id)
    && OneMore(Rows(m, c, id), Rows(m', c', id), HeapRow(rowId, RowBytes(row)))
  }

  /** INSERT adds the one row the table accepts for the values, keeps every index in step and touches no other table. It
  succeeds exactly when there is such a row, the heap has a place for it and the indexes take it there. */
  method ExecuteInsert(store: TransactionalStore, floats: Floats, table: Core.Text, values: seq<Value>)
    returns (r: Result<ExecResult>)
    requires Serving(store)
    modifies store, store.disk
    ensures Serving(store)
    ensures Does(floats, Insert(table, values), old(Held(store)), Held(store), r)
    ensures r.Ok? <==>
      old(Ready(store)) && InsertGoes(old(store.disk.data), old(store.catalog), old(store.forest), floats, table, values)
    ensures r.Err? ==>
      && Unchanged(store)
      && r.error == if old(store.activeWriter) && Acceptable(old(store.catalog), floats, table, values) then Retryable else User
    ensures r.Ok? ==>
      && OneCommit(store)
      && SchemaKept(old(store.catalog), store.catalog)
      && exists row, rowId ::
        RowStoredAt(old(store.disk.data), old(store.catalog), store.disk.data, store.catalog, floats, table, values, row, rowId)
  {
    hide Utf8, Staying, InOrder, SqlInv, Serving, Transaction.Open, OneMore, SchemaKept, Rows, RowBytes, RowToStore, IndexesOn,
      OtherRowsKept, RelationById, RelationByName, Accepted, RowGoes, Meaning, InsertGoes, Does, DbOf, Acceptable, CoerceValues,
      RowStoredAt;
    ghost var m, c, forest := store.disk.data, store.catalog, store.forest;
    RowToStoreExact(floats, c, table, values);
    InsertGoesMeans(m, c, forest, floats, table, values);
    RefusedDoes(floats, Insert(table, values), Held(store));
    match RowToStore(floats, store.catalog, table, values)
    case Err(error) =>
      r := Err(error);
    case Ok((relation, coerced)) =>
      InsertTarget(store, floats, table, values);
      HeldIs(store);
      ServingMeans(store);
      var stored := InsertCoerced(store, relation, coerced);
      match stored
      case Err(error) =>
        r := Err(error);
      case Ok(rowId) =>
        HeldIs(store);
        RowHeld(m, c, forest, store.disk.data, store.catalog, floats, table, values, coerced, rowId);
        RowStands(m, c, store.disk.data, store.catalog, floats, table, values, coerced, rowId);
        r := Ok(StatementComplete(1));
  }

  /** One transaction that stores a row and indexes it. */
  method InsertCoerced(store: TransactionalStore, relation: RelationInfo, coerced: seq<Value>) returns (r: Result<RowId>)
    requires Serving(store) && RelationById(store.catalog, relation.id) == Some(relation)
    requires Encodable(coerced) && RowTyped(relation.columns, coerced)
    modifies store, store.disk
    ensures Serving(store)
    ensures r.Ok? <==>
      old(Ready(store)) && RowGoes(old(store.disk.data), old(store.catalog), old(store.forest), relation, coerced)
    ensures r.Err? ==> Unchanged(store) && r.error == if old(store.activeWriter) then Retryable else User
    ensures r.Ok? ==>
      && OneCommit(store) && SchemaKept(old(store.catalog), store.catalog)
      && OtherRowsKept(old(store.disk.data), old(store.catalog), store.disk.data, store.catalog, relation.id)
      && OneMore(Rows(old(store.disk.data), old(store.catalog), relation.id),
                 Rows(store.disk.data, store.catalog, relation.id), HeapRow(r.value, RowBytes(coerced)))
  {
    hide Utf8, Staying, InOrder, SqlInv, Serving, Transaction.Open, OneMore, SchemaKept, Rows, RowBytes, IndexesOn,
      OtherRowsKept, RelationById, RowGoes, Encodable, RowTyped;
    var indexes := IndexesOn(store.catalog.relations, relation.id);
    var begun := Start(store);
    match begun
    case Err(error) =>
      r := Err(error);
    case Ok(tx) =>
      r := StoreRow(tx, relation, indexes, coerced);
      if r.Ok? {
        Finish(tx);
      } else {
        Abandon(tx);
      }
  }

  lemma InsertGoesMeans(m: PageMap, c: Catalog, forest: Forest, floats: Floats, table: Core.Text, values: seq<Value>)
    ensures match RowToStore(floats, c, table, values)
      case Err(_) => !InsertGoes(m, c, forest, floats, table, values)
      case Ok((relation, coerced)) =>
        InsertGoes(m, c, forest, floats, table, values) <==> RowGoes(m, c, forest, relation, coerced)
  {
    hide RowToStore, Accepted, RowGoes, RelationByName;
    RowToStoreExact(floats, c, table, values);
  }

  lemma RowHeld(
      m: PageMap, c: Catalog, forest: Forest, m': PageMap, c': Catalog, floats: Floats, table: Core.Text, values: seq<Value>,
      row: seq<Value>, rowId: RowId)
    requires InOrder(m, c, forest) && SchemaKept(c, c') && Accepted(c, floats, table, values, row)
    requires RowGoes(m, c, forest, RelationByName(c, table).value, row)
    requires var id := RelationByName(c, table).value.id;
      OtherRowsKept(m, c, m', c', id) && OneMore(Rows(m, c, id), Rows(m', c', id), HeapRow(rowId, RowBytes(row)))
    ensures Does(floats, Insert(table, values), Meaning(m, c), Meaning(m', c'), Ok(StatementComplete(1)))
  {
    hide Utf8, Rows, RowBytes, ParseRow, Encodable, OneMore, OtherRowsKept, SchemaKept, Storable, FindName, RowValues, Disjoint,
      HeapTakes, RowGoesAt, RowStoresAs, RowAdded, Meaning, RelationInv, RelationByName, NamesInv;
    RowRoundTrip(row);
    NamedHeap(m, c, forest, table);
    MeaningRow(m, c, m', c', table, HeapRow(rowId, RowBytes(row)), row);
  }

  /** A relation with a heap is a table of the database. */
  lemma NamedHeap(m: PageMap, c: Catalog, forest: Forest, table: Core.Text)
    requires InOrder(m, c, forest) && RelationByName(c, table).Some? && RelationByName(c, table).value.storage.Heap?
    ensures RelationByName(c, table).value.kind == Table && table in Meaning(m, c).tables
    ensures Meaning(m, c).tables[table].columns == RelationByName(c, table).value.columns
  {
    hide Utf8, Rows, RowValues, Storable, Disjoint, NamesInv, FindName;
    assert RelationInv(RelationByName(c, table).value, m, forest, c.nextPageId);
    assert TableNamed(m, c, table).Some?;
  }

  lemma RowStands(
      m: PageMap, c: Catalog, m': PageMap, c': Catalog, floats: Floats, table: Core.Text, values: seq<Value>, row: seq<Value>,
      rowId: RowId)
    requires Accepted(c, floats, table, values, row)
    requires var id := RelationByName(c, table).value.id;
      OtherRowsKept(m, c, m', c', id) && OneMore(Rows(m, c, id), Rows(m', c', id), HeapRow(rowId, RowBytes(row)))
    ensures RowStoredAt(m, c, m', c', floats, table, values, row, rowId)
  {
    hide Utf8, Rows, RowBytes, OneMore, OtherRowsKept, Accepted;
  }

  // CREATE INDEX

  /** The table and column CREATE INDEX works on, when they exist and the column can be indexed. */
  function IndexTarget(c: Catalog, table: Core.Text, column: Core.Text): Result<(RelationInfo, nat)> {
    match RelationByName(c, table)
    case None => Err(User)
    case Some(relation) =>
      var i := FindColumn(relation.columns, column);
      if i == |relation.columns| || !Indexable(relation.columns[i].typeName) then Err(User) else Ok((relation, i))
  }

  /** Relation `i` of the catalog is the index `indexId` on `relation`'s column. */
  ghost predicate IndexAt(c: Catalog, i: nat, relation: RelationInfo, indexId: RelationId, column: nat) {
    && i < |c.relations| && c.relations[i].id == indexId && column < |relation.columns|
    && c.relations[i].storage.BPlusTree?
    && c.relations[i].storage.tableId == relation.id
    && c.relations[i].storage.columnName == relation.columns[column].name
    && IndexedColumn(c, c.relations[i]) == column
  }

  /** The new index has taken in `rows`; every other index agrees. */
  ghost predicate Filling(tx: Transaction, i: nat, relation: RelationInfo, indexId: RelationId, column: nat, rows: seq<HeapRow>)
    reads tx, tx.pages, tx.manager, tx.manager.disk
  {
    Staying(tx, map[indexId := rows]) && IndexAt(tx.pages.catalog, i, relation, indexId, column)
  }

  lemma IndexAtKept(c: Catalog, c': Catalog, i: nat, relation: RelationInfo, indexId: RelationId, column: nat)
    requires SchemaKept(c, c') && IndexAt(c, i, relation, indexId, column)
    ensures IndexAt(c', i, relation, indexId, column)
  {
    hide FindId, FindColumn;
    ColumnKept(c, c', i);
    assert SameSchema(c.relations[i], c'.relations[i]);
  }

  /** One row of the backfill. */
  method Backfill(
      tx: Transaction, relation: RelationInfo, indexId: RelationId, column: nat, heapRow: HeapRow,
      ghost i: nat, ghost before: seq<HeapRow>)
    returns (r: Result<()>)
    requires Filling(tx, i, relation, indexId, column, before)
    requires ParseRow(heapRow.bytes).Some? && |ParseRow(heapRow.bytes).value| == |relation.columns|
    modifies tx.pages, tx`forest
    ensures tx.Open() && indexId in old(tx.forest)
    ensures var took := InsertAll(old(tx.forest)[indexId], EntryOf(heapRow, column), old(tx.pages.catalog.nextPageId));
      && (r.Ok? <==> took.Ok?)
      && (r.Err? ==> r.error == User)
      && (r.Ok? ==> indexId in tx.forest && tx.forest[indexId] == took.value.tree && tx.pages.catalog.nextPageId == took.value.free)
    ensures r.Ok? ==> SchemaKept(old(tx.pages.catalog), tx.pages.catalog)
    ensures r.Ok? ==> Filling(tx, i, relation, indexId, column, before + [heapRow])
    ensures r.Ok? ==> RowsKept(old(tx.pages.View()), old(tx.pages.catalog), tx.pages.View(), tx.pages.catalog)
  {
    hide Staying, Transaction.Open, OneMore, ParseRow, FindId, IndexedColumn, SchemaKept, Rows, RowsKept, EntryOf, InsertAll;
    StayingOpen(tx, map[indexId := before]);
    ghost var c := tx.pages.catalog;
    match ParseRow(heapRow.bytes)
    case None =>
      assert false;
      r := Err(Corruption);
    case Some(values) =>
      if |values| != |relation.columns| {
        assert false;
        return Err(Corruption);
      }
      ghost var after := before + [heapRow];
      assert before + [] == before && before + [heapRow] + [] == after;
      OneMoreAt(before, heapRow, []);
      r := IndexRow(tx, indexId, column, values, heapRow.rowId, i, heapRow, map[indexId := before],
                    map[indexId := after], before, after);
      if r.Ok? {
        IndexAtKept(c, tx.pages.catalog, i, relation, indexId, column);
      }
  }

  /** Every row of the table goes into its new index. */
  method BackfillAll(
      tx: Transaction, relation: RelationInfo, indexId: RelationId, column: nat, rows: seq<HeapRow>, ghost i: nat)
    returns (r: Result<()>)
    requires Filling(tx, i, relation, indexId, column, [])
    requires rows == Rows(tx.pages.View(), tx.pages.catalog, relation.id) && AllRowsTyped(relation.columns, rows)
    requires indexId in tx.forest
    modifies tx.pages, tx`forest
    ensures tx.Open()
    ensures r.Ok? <==> InsertAll(old(tx.forest)[indexId], EntriesOf(rows, column), old(tx.pages.catalog.nextPageId)).Ok?
    ensures r.Err? ==> r.error == User
    ensures r.Ok? ==> SchemaKept(old(tx.pages.catalog), tx.pages.catalog)
    ensures r.Ok? ==> Staying(tx, map[]) && IndexAt(tx.pages.catalog, i, relation, indexId, column)
    ensures r.Ok? ==> RowsKept(old(tx.pages.View()), old(tx.pages.catalog), tx.pages.View(), tx.pages.catalog)
  {
    hide Staying, Transaction.Open, IndexAt, Rows, SchemaKept, InsertAll, EntryOf, EntriesOf, ParseRow, Typed, Utf8;
    ghost var m, c, t := tx.pages.View(), tx.pages.catalog, tx.forest[indexId];
    StayingOpen(tx, map[indexId := []]);
    SchemaSame(c);
    FillSplit(t, rows, 0, column, c.nextPageId, t, c.nextPageId);
    for k := 0 to |rows|
      invariant tx.Open() && Filling(tx, i, relation, indexId, column, rows[..k])
      invariant RowsKept(m, c, tx.pages.View(), tx.pages.catalog) && SchemaKept(c, tx.pages.catalog)
      invariant indexId in tx.forest
      invariant InsertAll(t, EntriesOf(rows[..k], column), c.nextPageId) ==
                Ok(Regrown(tx.forest[indexId], tx.pages.catalog.nextPageId))
    {
      ghost var c1 := tx.pages.catalog;
      FillSplit(t, rows, k, column, c.nextPageId, tx.forest[indexId], c1.nextPageId);
      var taken := Backfill(tx, relation, indexId, column, rows[k], i, rows[..k]);
      if taken.Err? {
        return taken;
      }
      assert rows[..k + 1] == rows[..k] + [rows[k]];
      SchemaTransitive(c, c1, tx.pages.catalog);
    }
    assert rows[..|rows|] == rows;
    CaughtUpWhole(tx, i, relation, indexId, column, rows);
    r := Ok(());
  }

  lemma SchemaSame(c: Catalog)
    ensures SchemaKept(c, c)
  {
  }

  /** The run of inserts up to row `k`, past it, and to the end. */
  lemma FillSplit(
      t: Tree, rows: seq<HeapRow>, k: nat, column: nat, free: u64, grown: Tree, free': u64)
    requires k <= |rows|
    requires k > 0 ==> InsertAll(t, EntriesOf(rows[..k], column), free) == Ok(Regrown(grown, free'))
    requires k == 0 ==> grown == t && free' == free
    ensures InsertAll(t, EntriesOf(rows[..k], column), free) == Ok(Regrown(grown, free'))
    ensures k < |rows| ==>
      var took := InsertAll(grown, EntryOf(rows[k], column), free');
      && InsertAll(t, EntriesOf(rows[..k + 1], column), free) == took
      && (took.Err? ==> InsertAll(t, EntriesOf(rows, column), free).Err?)
  {
    hide EntryOf;
    assert k == 0 ==> EntriesOf(rows[..0], column) == [];
    if k < |rows| {
      hide InsertAll, EntriesOf;
      var a, e, b := EntriesOf(rows[..k], column), EntryOf(rows[k], column), EntriesOf(rows[k + 1..], column);
      assert rows[..k + 1] == rows[..k] + [rows[k]] && rows == rows[..k + 1] + rows[k + 1..];
      EntriesConcat(rows[..k], [rows[k]], column);
      EntriesConcat(rows[..k + 1], rows[k + 1..], column);
      EntriesOne(rows[k], column);
      InsertAllConcat(t, a, e, free);
      InsertAllConcat(t, a + e, b, free);
    }
  }

  /** An index that has taken in the whole table agrees with it. */
  lemma CaughtUpWhole(tx: Transaction, i: nat, relation: RelationInfo, indexId: RelationId, column: nat, rows: seq<HeapRow>)
    requires Filling(tx, i, relation, indexId, column, rows)
    requires rows == Rows(tx.pages.View(), tx.pages.catalog, relation.id)
    ensures Staying(tx, map[])
  {
    hide Rows, Contents, EntriesOf, IndexedColumn, Transaction.Open, InOrder, AllTyped;
    var m, c, forest, lag := tx.pages.View(), tx.pages.catalog, tx.forest, map[indexId := rows];
    assert IndexAgrees(m, c, forest, lag, c.relations[i]);
    InOrderNames(m, c, forest, i);
    NothingChanged(m, c);
    IndexCaughtUp(m, m, c, c, forest, forest, i, lag, map[], rows);
  }

  /** Create the index and fill it, all within the transaction. */
  method BuildIndex(tx: Transaction, name: Core.Text, relation: RelationInfo, columnIndex: nat, column: Core.Text)
    returns (r: Result<()>)
    requires Staying(tx, map[]) && RelationById(tx.pages.catalog, relation.id) == Some(relation)
    requires RelationByName(tx.pages.catalog, relation.name) == Some(relation)
    requires columnIndex == FindColumn(relation.columns, column) < |relation.columns|
    requires Indexable(relation.columns[columnIndex].typeName)
    modifies tx.pages, tx`forest
    ensures tx.Open()
    ensures r.Ok? <==>
      && IndexFits(old(tx.pages.catalog), name, relation.id, column)
      && FillGoes(old(tx.pages.View()), old(tx.pages.catalog), relation.id, columnIndex)
    ensures r.Err? ==> r.error == User
    ensures r.Ok? ==> Staying(tx, map[])
    ensures r.Ok? ==> Indexed(tx.pages.catalog, relation.id, relation.columns[columnIndex].name)
    ensures r.Ok? ==> RowsKept(old(tx.pages.View()), old(tx.pages.catalog), tx.pages.View(), tx.pages.catalog)
    ensures r.Ok? ==>
      IndexMade(Meaning(old(tx.pages.View()), old(tx.pages.catalog)), Meaning(tx.pages.View(), tx.pages.catalog),
                name, relation.name, column)
  {
    hide Agree, AllTyped, InOrder, TransactionalStore.Valid, FindId, FindColumn, FindName, Rows, IndexOps.CreateIndex, RowsKept,
      IndexAt, Indexed, IndexFits, FillGoes, Meaning, IndexMade, AllRowsTyped, Utf8, InsertAll, EntriesOf, RelationById,
      RelationByName, SchemaKept, EmptyTree;
    ghost var m, c, forest := tx.pages.View(), tx.pages.catalog, tx.forest;
    var created := tx.CreateIndex(name, relation.id, column);
    NewIndexGoes(m, c, forest, name, relation, columnIndex, column);
    match created
    case Err(error) =>
      r := Err(error);
    case Ok((indexId, rootPageId)) =>
      ghost var m1, c1 := tx.pages.View(), tx.pages.catalog;
      var scanned := tx.FullScan(relation.id);
      match scanned
      case Err(error) =>
        assert false;
        r := Err(error);
      case Ok(rows) =>
        r := BackfillAll(tx, relation, indexId, columnIndex, rows, |c.relations|);
        if r.Ok? {
          RowsKeptOn(m, c, m1, c1, tx.pages.View(), tx.pages.catalog);
          IndexAtMeansIndexed(tx, |c.relations|, relation, indexId, columnIndex);
          MeaningKept(m1, c1, tx.pages.View(), tx.pages.catalog);
        }
  }

  /** Creating the empty index: whether it goes, what it leaves, and whether filling it then goes. */
  lemma NewIndexGoes(
      m: PageMap, c: Catalog, forest: Forest, name: Core.Text, relation: RelationInfo, columnIndex: nat, column: Core.Text)
    requires InOrder(m, c, forest) && SqlInv(m, c, forest)
    requires RelationById(c, relation.id) == Some(relation) && RelationByName(c, relation.name) == Some(relation)
    requires columnIndex == FindColumn(relation.columns, column) < |relation.columns|
    requires Indexable(relation.columns[columnIndex].typeName)
    ensures var s := IndexOps.CreateIndex(m, c, name, relation.id, column);
      if IndexFits(c, name, relation.id, column) then
        && s.result == Ok((c.nextRelationId, c.nextPageId)) && s.catalog.nextPageId == c.nextPageId + 1
        && NewIndex(s, m, c, forest, relation, column)
        && TableOf(s.catalog, relation.id).Ok?
        && AllRowsTyped(relation.columns, Rows(s.pages, s.catalog, relation.id))
        && IndexMade(Meaning(m, c), Meaning(s.pages, s.catalog), name, relation.name, column)
        && (FillGoes(m, c, relation.id, columnIndex) <==>
            InsertAll(EmptyTree(c.nextPageId), EntriesOf(Rows(s.pages, s.catalog, relation.id), columnIndex), c.nextPageId + 1).Ok?)
      else s.result == Err(User)
  {
    hide SqlInv, RelationInv, Disjoint, Rows, Storable, FindId, FindName, FindColumn, NamesInv, NewIndex, Meaning, IndexMade,
      IndexOps.CreateIndex, Utf8, AllRowsTyped, InsertAll, EntriesOf;
    CreateIndexExact(m, c, name, relation.id, column);
    if IndexFits(c, name, relation.id, column) {
      var s := IndexOps.CreateIndex(m, c, name, relation.id, column);
      var r := RelationInfo(c.nextRelationId, name, Index, BPlusTree(relation.id, column, c.nextPageId),
                            [ColumnDef(column, INDEX_KEY_TYPE)]);
      NewIndexEmpty(m, c, forest, name, relation, column);
      CreateIndexKeeps(m, c, forest, name, relation.id, column);
      assert IndexInv(c, r);
      AddedNames(c, s.catalog, r);
      RelationKnown(m, c, forest, relation);
      RowsTyped(m, c, forest, relation);
      MeaningIndex(m, c, s.pages, s.catalog, r, relation);
    }
  }

  lemma RelationKnown(m: PageMap, c: Catalog, forest: Forest, relation: RelationInfo)
    requires InOrder(m, c, forest) && RelationById(c, relation.id) == Some(relation)
    ensures relation.id < c.nextRelationId && (relation.kind == Table ==> relation.storage.Heap?)
  {
    hide Storable, Disjoint;
    assert RelationInv(c.relations[FindId(c.relations, relation.id)], m, forest, c.nextPageId);
  }

  lemma RowsTyped(m: PageMap, c: Catalog, forest: Forest, relation: RelationInfo)
    requires InOrder(m, c, forest) && SqlInv(m, c, forest)
    requires RelationById(c, relation.id) == Some(relation) && relation.storage.Heap?
    ensures AllRowsTyped(relation.columns, Rows(m, c, relation.id))
  {
    hide InOrder, Agree, Rows, AllRowsTyped, IndexTyped;
    assert TableTyped(m, c, c.relations[FindId(c.relations, relation.id)]);
  }

  lemma RowsKeptOn(m: PageMap, c: Catalog, m1: PageMap, c1: Catalog, m2: PageMap, c2: Catalog)
    requires RowsKept(m, c, m1, c1) && RowsKept(m1, c1, m2, c2)
    ensures RowsKept(m, c, m2, c2)
  {
    hide Rows;
  }

  /** `s` added an empty index on the column to `c`, and no table scans differently. */
  ghost predicate NewIndex(
      s: Staged<(RelationId, PageId)>, m: PageMap, c: Catalog, forest: Forest, relation: RelationInfo, column: Core.Text)
  {
    && s.result.Ok?
    && Agree(s.pages, s.catalog, forest[s.result.value.0 := EmptyTree(s.result.value.1)], map[s.result.value.0 := []])
    && AllTyped(s.pages, s.catalog)
    && RowsKept(m, c, s.pages, s.catalog)
    && IndexAt(s.catalog, |c.relations|, relation, s.result.value.0, FindColumn(relation.columns, column))
  }

  lemma NewIndexEmpty(m: PageMap, c: Catalog, forest: Forest, name: Core.Text, relation: RelationInfo, column: Core.Text)
    requires InOrder(m, c, forest) && SqlInv(m, c, forest) && RelationById(c, relation.id) == Some(relation)
    requires var columnIndex := FindColumn(relation.columns, column);
      columnIndex < |relation.columns| && Indexable(relation.columns[columnIndex].typeName)
    requires IndexOps.CreateIndex(m, c, name, relation.id, column).result.Ok?
    ensures NewIndex(IndexOps.CreateIndex(m, c, name, relation.id, column), m, c, forest, relation, column)
  {
    hide SqlInv, RelationInv, Disjoint, Rows, Storable, FindId, FindName, RowsKept, NamesInv;
    IndexCreated(m, c, forest, name, relation, column);
    CreateIndexKeeps(m, c, forest, name, relation.id, column);
  }

  lemma IndexAtMeansIndexed(tx: Transaction, i: nat, relation: RelationInfo, indexId: RelationId, column: nat)
    requires Staying(tx, map[]) && IndexAt(tx.pages.catalog, i, relation, indexId, column)
    ensures Indexed(tx.pages.catalog, relation.id, relation.columns[column].name)
  {
    hide Agree, AllTyped, TransactionalStore.Valid;
    IndexKind(tx.pages.View(), tx.pages.catalog, tx.forest, i);
    assert tx.pages.catalog.relations[i] in IndexesOn(tx.pages.catalog.relations, relation.id);
  }

  /** CREATE INDEX adds one index on the column, holding the rows already in the table. It succeeds exactly when the
  column is an indexable one of the table, the catalog can take the index and an empty tree can take the rows' keys. */
  method ExecuteCreateIndex(store: TransactionalStore, name: Core.Text, table: Core.Text, column: Core.Text)
    returns (r: Result<ExecResult>)
    requires Serving(store)
    modifies store, store.disk
    ensures Serving(store)
    ensures r.Ok? <==>
      old(Ready(store)) && IndexGoes(old(store.disk.data), old(store.catalog), name, table, column)
    ensures r.Err? ==>
      && Unchanged(store)
      && r.error ==
         if old(store.activeWriter) && exists p :: IndexableColumn(old(store.catalog), table, column, p) then Retryable else User
    ensures r.Ok? ==>
      && r.value == StatementComplete(0) && OneCommit(store)
      && IndexMade(old(Held(store)), Held(store), name, table, column)
      && IndexTarget(old(store.catalog), table, column).Ok?
      && Indexed(store.catalog, IndexTarget(old(store.catalog), table, column).value.0.id, column)
      && RowsKept(old(store.disk.data), old(store.catalog), store.disk.data, store.catalog)
  {
    hide Staying, Serving, Transaction.Open, IndexTarget, RowsKept, Indexed, RelationById, RelationByName, FindColumn, Indexable,
      IndexGoes, IndexableColumn, IndexFits, FillGoes, Meaning, IndexMade, Utf8;
    IndexTargetExact(store.disk.data, store.catalog, name, table, column);
    match IndexTarget(store.catalog, table, column)
    case Err(error) =>
      r := Err(error);
    case Ok((relation, columnIndex)) =>
      TargetFound(store, table, column);
      HeldIs(store);
      var begun := Start(store);
      match begun
      case Err(error) =>
        r := Err(error);
      case Ok(tx) =>
        var built := BuildIndex(tx, name, relation, columnIndex, column);
        match built
        case Err(error) =>
          Abandon(tx);
          r := Err(error);
        case Ok(_) =>
          Finish(tx);
          HeldIs(store);
          r := Ok(StatementComplete(0));
  }

  /** The target is the one indexable column of that name, or User when there is none. */
  lemma IndexTargetExact(m: PageMap, c: Catalog, name: Core.Text, table: Core.Text, column: Core.Text)
    ensures match IndexTarget(c, table, column)
      case Err(error) =>
        && error == User && !IndexGoes(m, c, name, table, column)
        && forall p :: !IndexableColumn(c, table, column, p)
      case Ok((relation, i)) =>
        && RelationByName(c, table) == Some(relation) && IndexableColumn(c, table, column, i)
        && (IndexGoes(m, c, name, table, column) <==>
            IndexFits(c, name, relation.id, column) && FillGoes(m, c, relation.id, i))
  {
    hide Utf8, FindName, IndexFits, FillGoes;
    if RelationByName(c, table).Some? {
      var columns := RelationByName(c, table).value.columns;
      var i := FindColumn(columns, column);
      assert i < |columns| ==> IsColumn(columns, column, i);
      forall p | IndexableColumn(c, table, column, p) ensures p == i {
      }
    }
  }

  lemma TargetFound(store: TransactionalStore, table: Core.Text, column: Core.Text)
    requires Serving(store) && IndexTarget(store.catalog, table, column).Ok?
    ensures var (relation, columnIndex) := IndexTarget(store.catalog, table, column).value;
      && RelationById(store.catalog, relation.id) == Some(relation)
      && RelationByName(store.catalog, table) == Some(relation) && relation.name == table
      && columnIndex == FindColumn(relation.columns, column) < |relation.columns|
      && relation.columns[columnIndex].name == column
      && Indexable(relation.columns[columnIndex].typeName)
  {
    hide Agree, AllTyped, TransactionalStore.Valid, RelationInv, Disjoint, Storable;
    ByNameIsById(store.catalog, table);
  }
}
