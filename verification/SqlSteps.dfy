/** How each step of a statement's transaction moves the SQL invariant. */
module SqlSteps {
  import opened Core
  import opened CatalogModel
  import opened IndexModel
  import opened PageModel
  import opened BTreeModel
  import opened BTreeHeap
  import opened BTreeTheorems
  import opened DbModel
  import opened HeapOps
  import opened HeapReads
  import opened IndexOps
  import opened RowCodec
  import opened SqlModel
  import opened SqlInvariant

  /** Names and ids find the same relation. */
  lemma ByNameIsById(c: Catalog, name: Core.Text)
    requires NamesInv(c) && RelationByName(c, name).Some?
    ensures RelationById(c, RelationByName(c, name).value.id) == RelationByName(c, name)
  {
    FindIdUnique(c.relations, FindName(c.relations, name));
  }

  lemma RowsSchema(m: PageMap, c: Catalog, id: RelationId, bytes: Bytes)
    requires RelationById(c, id).Some? ==> HeapReady(m, RelationById(c, id).value)
    requires HeapOps.InsertRow(m, c, id, bytes).result.Ok?
    ensures SchemaKept(c, HeapOps.InsertRow(m, c, id, bytes).catalog)
  {
    hide FirstRoom, Storable;
  }

  lemma RerootedSchema(c: Catalog, i: nat, root: PageId, free: u64)
    requires i < |c.relations| && c.relations[i].storage.BPlusTree?
    ensures SchemaKept(c, Rerooted(c, i, root, free))
  {
  }

  lemma SchemaTransitive(a: Catalog, b: Catalog, c: Catalog)
    requires SchemaKept(a, b) && SchemaKept(b, c)
    ensures SchemaKept(a, c)
  {
    forall i | 0 <= i < |a.relations| ensures SameSchema(a.relations[i], c.relations[i]) {
      assert SameSchema(a.relations[i], b.relations[i]) && SameSchema(b.relations[i], c.relations[i]);
    }
  }

  // INSERT

  /** The indexes still to take in a new row, at the rows they hold. */
  ghost function Behind(indexes: seq<RelationInfo>, rows: seq<HeapRow>): Lag {
    map r | r in indexes :: r.id := rows
  }

  ghost predicate DistinctIds(relations: seq<RelationInfo>) {
    forall i, j :: 0 <= i < j < |relations| ==> relations[i].id != relations[j].id
  }

  lemma {:induction false} IndexesOnDistinct(relations: seq<RelationInfo>, tableId: RelationId)
    requires DistinctIds(relations)
    ensures DistinctIds(IndexesOn(relations, tableId))
  {
    if relations != [] {
      var first, rest := relations[0], IndexesOn(relations[1..], tableId);
      assert DistinctIds(relations[1..]);
      IndexesOnDistinct(relations[1..], tableId);
      forall j | 0 <= j < |rest| ensures rest[j].id != first.id {
        assert rest[j] in rest && rest[j] in relations[1..];
        var k :| 0 <= k < |relations[1..]| && relations[1..][k] == rest[j];
        assert relations[k + 1] == rest[j];
      }
      assert DistinctIds([first] + rest);
    }
  }

  /** A typed row stored in table `id`: rows stay typed, and the table's indexes are one row behind. */
  lemma RowStored(m: PageMap, c: Catalog, forest: Forest, id: RelationId, values: seq<Value>)
    requires DbInv(m, c, forest) && SqlInv(m, c, forest)
    requires TableOf(c, id).Ok? && HeapReady(m, TableOf(c, id).value)
    requires Encodable(values) && RowTyped(TableOf(c, id).value.columns, values)
    requires HeapOps.InsertRow(m, c, id, RowBytes(values)).result.Ok?
    ensures var s := HeapOps.InsertRow(m, c, id, RowBytes(values));
      && SchemaKept(c, s.catalog)
      && AllTyped(s.pages, s.catalog)
      && Agree(s.pages, s.catalog, forest, Behind(IndexesOn(c.relations, id), Rows(m, c, id)))
      && OneMore(Rows(m, c, id), Rows(s.pages, s.catalog, id), HeapRow(s.result.value, RowBytes(values)))
      && OtherRowsKept(m, c, s.pages, s.catalog, id)
  {
    hide Rows, RowBytes, ParseRow, RowTyped, Encodable, HeapOps.InsertRow, Agree, AllTyped, FindId, OneMore, OtherRowsKept;
    var s := HeapOps.InsertRow(m, c, id, RowBytes(values));
    var i := FindId(c.relations, id);
    assert RelationInv(c.relations[i], m, forest, c.nextPageId);
    InsertRowKeeps(m, c, forest, id, RowBytes(values));
    RowsSchema(m, c, id, RowBytes(values));
    RowRoundTrip(values);
    TypedInsert(m, s.pages, c, s.catalog, i, HeapRow(s.result.value, RowBytes(values)));
    BehindIndexes(m, s.pages, c, s.catalog, forest, id);
  }

  lemma IndexKind(m: PageMap, c: Catalog, forest: Forest, i: nat)
    requires DbInv(m, c, forest) && i < |c.relations|
    ensures c.relations[i].storage.BPlusTree? ==> c.relations[i].kind == Index
  {
    assert RelationInv(c.relations[i], m, forest, c.nextPageId);
  }

  lemma BehindIndexes(m: PageMap, m': PageMap, c: Catalog, c': Catalog, forest: Forest, id: RelationId)
    requires DbInv(m, c, forest) && Agree(m, c, forest, map[]) && SchemaKept(c, c') && OtherRowsKept(m, c, m', c', id)
    ensures Agree(m', c', forest, Behind(IndexesOn(c.relations, id), Rows(m, c, id)))
  {
    hide Rows, Agree, SchemaKept, OtherRowsKept, RelationInv, Disjoint, IndexInv, Utf8;
    var indexes, rows := IndexesOn(c.relations, id), Rows(m, c, id);
    var lag := Behind(indexes, rows);
    forall i | 0 <= i < |c.relations|
      ensures c.relations[i].storage.BPlusTree? && c.relations[i].storage.tableId == id ==> c.relations[i].id in lag
      ensures c.relations[i].id in lag ==> c.relations[i].storage.BPlusTree? && c.relations[i].storage.tableId == id
    {
      IndexKind(m, c, forest, i);
      if c.relations[i].id in lag {
        var r :| r in indexes && r.id == c.relations[i].id;
        var j :| 0 <= j < |c.relations| && c.relations[j] == r;
        assert j == i;
      }
    }
    RowInsertedLags(m, m', c, c', forest, id, lag);
  }

  /** Index `i` takes in the row it lacked. */
  lemma CatchUp(
      m: PageMap, m': PageMap, c: Catalog, c': Catalog, forest: Forest, forest': Forest, i: nat, lag: Lag, lag': Lag,
      before: seq<HeapRow>, after: seq<HeapRow>, row: HeapRow)
    requires Agree(m, c, forest, lag) && NamesInv(c) && SchemaKept(c, c') && RowsKept(m, c, m', c')
    requires i < |c.relations| && c.relations[i].storage.BPlusTree? && c.relations[i].id in forest
    requires c.relations[i].id in forest'
    requires forall x :: x in forest && x != c.relations[i].id ==> x in forest' && forest'[x] == forest[x]
    requires OneMore(before, after, row) && IndexedRows(m, c, lag, c.relations[i]) == before
    requires Contents(forest'[c.relations[i].id]) ==
             Contents(forest[c.relations[i].id]) + multiset(EntryOf(row, IndexedColumn(c, c.relations[i])))
    requires forall x :: x != c.relations[i].id ==> (x in lag <==> x in lag') && (x in lag ==> lag'[x] == lag[x])
    requires IndexedRows(m', c', lag', c.relations[i]) == after
    ensures Agree(m', c', forest', lag')
  {
    hide EntriesOf, Contents, OneMore, IndexedRows, EntryOf, IndexedColumn, NamesInv, SchemaKept;
    var r := c.relations[i];
    assert IndexAgrees(m, c, forest, lag, r);
    EntriesOneMore(before, after, row, IndexedColumn(c, r));
    IndexCaughtUp(m, m', c, c', forest, forest', i, lag, lag', after);
  }

  // CREATE TABLE, CREATE INDEX

  lemma TableCreated(m: PageMap, c: Catalog, forest: Forest, name: Core.Text, columns: seq<ColumnDef>)
    requires DbInv(m, c, forest) && SqlInv(m, c, forest)
    requires HeapOps.CreateTable(m, c, name, columns).result.Ok?
    ensures var s := HeapOps.CreateTable(m, c, name, columns); SqlInv(s.pages, s.catalog, forest)
  {
    hide Rows, FindId, FindName, FindColumn, Storable, Agree, AllTyped, OtherRowsKept;
    var s := HeapOps.CreateTable(m, c, name, columns);
    CreateTableKeeps(m, c, forest, name, columns);
    var r := s.catalog.relations[|c.relations|];
    AddKeepsTyped(m, s.pages, c, s.catalog, r);
    AddKeepsAgree(m, s.pages, c, s.catalog, forest, forest, r, map[]);
  }

  ghost predicate IndexAdded(c: Catalog, c': Catalog, id: RelationId, storage: StorageObject) {
    && |c'.relations| == |c.relations| + 1 && c'.relations[..|c.relations|] == c.relations
    && c'.relations[|c.relations|].id == id && c'.relations[|c.relations|].storage == storage
  }

  /** A new index `s` has just made: it has taken in no row yet. */
  ghost predicate IndexStarted(
      s: Staged<(RelationId, PageId)>, c: Catalog, forest: Forest, table: RelationInfo, columnName: Core.Text)
  {
    && s.result.Ok?
    && Agree(s.pages, s.catalog, forest[s.result.value.0 := EmptyTree(s.result.value.1)], map[s.result.value.0 := []])
    && AllTyped(s.pages, s.catalog)
    && RelationById(s.catalog, table.id) == Some(table)
    && IndexAdded(c, s.catalog, s.result.value.0, BPlusTree(table.id, columnName, s.result.value.1))
  }

  /** A new index on an indexable column is started in order. */
  lemma IndexCreated(m: PageMap, c: Catalog, forest: Forest, name: Core.Text, table: RelationInfo, columnName: Core.Text)
    requires DbInv(m, c, forest) && SqlInv(m, c, forest)
    requires RelationById(c, table.id) == Some(table)
    requires var column := FindColumn(table.columns, columnName);
      column < |table.columns| && Indexable(table.columns[column].typeName)
    requires IndexOps.CreateIndex(m, c, name, table.id, columnName).result.Ok?
    ensures IndexStarted(IndexOps.CreateIndex(m, c, name, table.id, columnName), c, forest, table, columnName)
  {
    hide Rows, FindId, FindColumn, Agree, AllTyped, Contents, IndexOps.CreateIndex, RelationInv, Disjoint, Utf8;
    var s := IndexOps.CreateIndex(m, c, name, table.id, columnName);
    CreateIndexKeeps(m, c, forest, name, table.id, columnName);
    var r := IndexShape(m, c, name, table, columnName);
    var (id, page) := s.result.value;
    EmptyTreeWellFormed(page);
    AddedNames(c, s.catalog, r);
    NoSuchRows(m, c, id);
    AddKeepsTyped(m, s.pages, c, s.catalog, r);
    AddKeepsAgree(m, s.pages, c, s.catalog, forest, forest[id := EmptyTree(page)], r, map[id := []]);
  }

  /** The relation CREATE INDEX adds. */
  lemma IndexShape(m: PageMap, c: Catalog, name: Core.Text, table: RelationInfo, columnName: Core.Text) returns (r: RelationInfo)
    requires RelationById(c, table.id) == Some(table) && FindColumn(table.columns, columnName) < |table.columns|
    requires IndexOps.CreateIndex(m, c, name, table.id, columnName).result.Ok?
    ensures var s := IndexOps.CreateIndex(m, c, name, table.id, columnName);
      && s.catalog.relations == c.relations + [r] && s.catalog.nextRelationId == c.nextRelationId + 1
      && r.id == c.nextRelationId == s.result.value.0
      && r.storage == BPlusTree(table.id, columnName, s.result.value.1)
    ensures IndexInv(c, r)
  {
    hide FindId, FindName, FindColumn, Storable, IndexesOn, Utf8;
    r := IndexOps.CreateIndex(m, c, name, table.id, columnName).catalog.relations[|c.relations|];
  }

  lemma NoSuchRows(m: PageMap, c: Catalog, id: RelationId)
    requires RelationById(c, id) == None
    ensures Rows(m, c, id) == []
  {
  }
}
