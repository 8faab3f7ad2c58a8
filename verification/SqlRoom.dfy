/** Exactly when a statement succeeds, by what is known before it runs. */
module SqlRoom {
  import opened Core
  import opened CatalogModel
  import opened IndexModel
  import opened PageModel
  import opened BTreeModel
  import opened BTreeHeap
  import opened BTreeLookup
  import opened BTreeTheorems
  import opened BTreeSpace
  import opened BTreeKeys
  import opened DbModel
  import opened HeapOps
  import opened IndexOps
  import opened RowCodec
  import opened SqlModel
  import opened SqlInvariant
  import opened SqlSteps
  import opened SqlMeaning

  // INSERT

  /** A row goes into the trees of these indexes one after another: the next free page id, if each can take its entry. */
  ghost function TakeAll(forest: Forest, indexes: seq<RelationInfo>, columns: seq<ColumnDef>, row: HeapRow, free: u64)
    : Result<u64>
  {
    if indexes == [] then Ok(free)
    else if !indexes[0].storage.BPlusTree? || indexes[0].id !in forest then Err(InternalInvariant)
    else
      var entry := EntryOf(row, FindColumn(columns, indexes[0].storage.columnName));
      match InsertAll(forest[indexes[0].id], entry, free)
      case Err(error) => Err(error)
      case Ok(grown) => TakeAll(forest, indexes[1..], columns, row, grown.free)
  }

  /** The heap has a place for the row, and every index of the table can take the row's entry there. */
  ghost predicate RowGoes(m: PageMap, c: Catalog, forest: Forest, relation: RelationInfo, row: seq<Value>) {
    && relation.storage.Heap? && HeapTakes(m, c, relation.storage.pages, RowBytes(row))
    && exists rowId :: RowGoesAt(m, c, forest, relation, row, rowId)
  }

  ghost predicate RowGoesAt(m: PageMap, c: Catalog, forest: Forest, relation: RelationInfo, row: seq<Value>, rowId: RowId)
    requires relation.storage.Heap? && HeapTakes(m, c, relation.storage.pages, RowBytes(row))
  {
    var pages, bytes := relation.storage.pages, RowBytes(row);
    && Placed(m, pages, c.nextPageId, bytes, rowId)
    && TakeAll(forest, IndexesOn(c.relations, relation.id), relation.columns, HeapRow(rowId, bytes),
               if RoomAmong(m, pages, bytes) then c.nextPageId else c.nextPageId + 1).Ok?
  }

  /** The columns of the named relation take the values, and the row encodes. */
  ghost predicate Accepted(c: Catalog, floats: Floats, table: Core.Text, values: seq<Value>, row: seq<Value>) {
    && RelationByName(c, table).Some?
    && RowStoresAs(floats, RelationByName(c, table).value.columns, values, row) && Encodable(row)
  }

  ghost predicate Acceptable(c: Catalog, floats: Floats, table: Core.Text, values: seq<Value>) {
    exists row :: Accepted(c, floats, table, values, row)
  }

  ghost predicate InsertGoes(m: PageMap, c: Catalog, forest: Forest, floats: Floats, table: Core.Text, values: seq<Value>) {
    exists row :: Accepted(c, floats, table, values, row) && RowGoes(m, c, forest, RelationByName(c, table).value, row)
  }

  // CREATE INDEX

  /** The column is one of the table's and of an indexable type. */
  ghost predicate IndexableColumn(c: Catalog, table: Core.Text, column: Core.Text, p: nat) {
    && RelationByName(c, table).Some?
    && IsColumn(RelationByName(c, table).value.columns, column, p)
    && RelationByName(c, table).value.columns[p].typeName in [INT, INTEGER, TEXT]
  }

  ghost predicate IndexGoes(m: PageMap, c: Catalog, name: Core.Text, table: Core.Text, column: Core.Text) {
    exists p: nat ::
      && IndexableColumn(c, table, column, p)
      && IndexFits(c, name, RelationByName(c, table).value.id, column)
      && FillGoes(m, c, RelationByName(c, table).value.id, p)
  }

  /** An empty tree on the next page takes the entries of every row of the table. */
  ghost predicate FillGoes(m: PageMap, c: Catalog, id: RelationId, column: nat) {
    c.nextPageId < U64_MAX
    && InsertAll(EmptyTree(c.nextPageId), EntriesOf(Rows(m, c, id), column), c.nextPageId + 1).Ok?
  }

  // Plain conditions that are enough

  /** Every text in that column of that row is at most 996 bytes. */
  ghost predicate ShortAt(row: HeapRow, column: nat) {
    KeyOfRow(row, column).Some? && KeyOfRow(row, column).value.Text? ==>
      |KeyOfRow(row, column).value.text| <= SAFE_KEY_BYTES
  }

  lemma {:induction false} ShortRowsShortEntries(rows: seq<HeapRow>, column: nat)
    requires forall i :: 0 <= i < |rows| ==> ShortAt(rows[i], column)
    ensures ShortEntries(EntriesOf(rows, column)) && |EntriesOf(rows, column)| <= |rows|
  {
    hide KeyOfRow;
    if rows != [] {
      ShortRowsShortEntries(rows[1..], column);
      assert ShortAt(rows[0], column);
      assert ShortEntries(EntryOf(rows[0], column));
    }
  }

  /** CREATE INDEX on a column whose texts are at most 996 bytes succeeds while the catalog has room and two page ids a
  row are left. */
  lemma ShortColumnIndexes(m: PageMap, c: Catalog, name: Core.Text, table: Core.Text, column: Core.Text, p: nat)
    requires IndexableColumn(c, table, column, p)
    requires IndexFits(c, name, RelationByName(c, table).value.id, column)
    requires var rows := Rows(m, c, RelationByName(c, table).value.id);
      (forall i :: 0 <= i < |rows| ==> ShortAt(rows[i], p)) && c.nextPageId + 2 * |rows| < U64_MAX
    ensures IndexGoes(m, c, name, table, column)
  {
    hide Rows, EntriesOf, InsertAll, Utf8, RelationByName, IndexFits, ShortAt;
    var rows := Rows(m, c, RelationByName(c, table).value.id);
    ShortRowsShortEntries(rows, p);
    FillFits(c.nextPageId, EntriesOf(rows, p));
    assert FillGoes(m, c, RelationByName(c, table).value.id, p);
  }

  /** The trees of these indexes hold keys of at most 996 bytes and at most `n` entries each. */
  ghost predicate ShortTrees(forest: Forest, indexes: seq<RelationInfo>, n: nat) {
    forall i :: 0 <= i < |indexes| ==> ShortTreeOf(forest, indexes[i], n)
  }

  ghost predicate ShortTreeOf(forest: Forest, index: RelationInfo, n: nat) {
    && index.storage.BPlusTree? && index.id in forest
    && ShortTree(forest[index.id]) && |Entries(forest[index.id])| <= n
    && exists h :: WellFormed(forest[index.id], h)
  }

  /** A row with short texts goes into short trees while page ids last: at most `n + 2` for each index. */
  lemma {:induction false} ShortTreesTake(
      forest: Forest, indexes: seq<RelationInfo>, columns: seq<ColumnDef>, row: HeapRow, free: u64, n: nat)
    requires ShortTrees(forest, indexes, n) && (forall column :: ShortAt(row, column))
    requires free + |indexes| * (n + 2) <= U64_MAX
    ensures TakeAll(forest, indexes, columns, row, free).Ok?
    decreases |indexes|
  {
    hide ShortAt, KeyOfRow, Balanced, Ordered, ShortTree, Entries, InsertRoot, FindColumn;
    if indexes != [] {
      assert ShortTreeOf(forest, indexes[0], n);
      var t, column := forest[indexes[0].id], FindColumn(columns, indexes[0].storage.columnName);
      var h :| WellFormed(t, h);
      NodesBound(t, h);
      var rest := indexes[1..];
      forall i | 0 <= i < |rest| ensures ShortTreeOf(forest, rest[i], n) {
        assert rest[i] == indexes[i + 1];
      }
      assert |indexes| * (n + 2) == (n + 2) + |rest| * (n + 2);
      var key := KeyOfRow(row, column);
      if key.Some? {
        var e := IndexEntry(key.value, row.rowId);
        assert Short(key.value) by { ShortKeyAt(row, column); }
        InsertRootFits(t, h, e, free);
        InsertAllOne(t, e, free);
        ShortTreesTake(forest, rest, columns, row, InsertRoot(t, e, free).value.free, n);
      } else {
        ShortTreesTake(forest, rest, columns, row, free, n);
      }
    }
  }

  lemma ShortKeyAt(row: HeapRow, column: nat)
    requires ShortAt(row, column) && KeyOfRow(row, column).Some?
    ensures Short(KeyOfRow(row, column).value)
  {
  }

  /** A tree that agrees with rows whose texts are short is itself short. */
  lemma AgreeingTreeShort(t: Tree, rows: seq<HeapRow>, column: nat)
    requires KeysStored(t) && Contents(t) == multiset(EntriesOf(rows, column))
    requires forall i :: 0 <= i < |rows| ==> ShortAt(rows[i], column)
    ensures ShortTree(t) && |Entries(t)| <= |rows|
  {
    hide ShortTree, KeysStored, EntriesOf, ShortAt, Entries;
    var es := EntriesOf(rows, column);
    ShortRowsShortEntries(rows, column);
    assert |Contents(t)| == |Entries(t)| && |multiset(es)| == |es|;
    forall e | e in Contents(t) ensures Short(e.key) {
      assert e in es;
    }
    ShortEntriesShortTree(t);
  }

  lemma IndexesShort(m: PageMap, c: Catalog, forest: Forest, relation: RelationInfo)
    requires DbInv(m, c, forest) && SqlInv(m, c, forest) && RelationById(c, relation.id) == Some(relation)
    requires forall i, column :: 0 <= i < |Rows(m, c, relation.id)| ==> ShortAt(Rows(m, c, relation.id)[i], column)
    ensures ShortTrees(forest, IndexesOn(c.relations, relation.id), |Rows(m, c, relation.id)|)
  {
    hide Rows, EntriesOf, Contents, ShortAt, ShortTree, KeysStored, Entries, FindId, FindColumn, IndexesOn, AllTyped, Balanced,
      Ordered, Planted, RelationInv, Disjoint, NamesInv;
    var indexes, n := IndexesOn(c.relations, relation.id), |Rows(m, c, relation.id)|;
    forall k | 0 <= k < |indexes| ensures ShortTreeOf(forest, indexes[k], n) {
      assert indexes[k] in indexes;
      var i :| 0 <= i < |c.relations| && c.relations[i] == indexes[k];
      IndexPlanted(m, c, forest, i);
      assert IndexAgrees(m, c, forest, map[], c.relations[i]);
      AgreeingTreeShort(forest[indexes[k].id], Rows(m, c, relation.id), IndexedColumn(c, indexes[k]));
    }
  }

  /** INSERT succeeds on a table whose texts, the new row's included, are at most 996 bytes, while the heap takes the row
  and the page ids last. */
  lemma ShortRowGoes(
      m: PageMap, c: Catalog, forest: Forest, floats: Floats, table: Core.Text, values: seq<Value>, row: seq<Value>, rowId: RowId)
    requires DbInv(m, c, forest) && SqlInv(m, c, forest) && Accepted(c, floats, table, values, row)
    requires var r := RelationByName(c, table).value;
      && r.storage.Heap? && HeapTakes(m, c, r.storage.pages, RowBytes(row))
      && Placed(m, r.storage.pages, c.nextPageId, RowBytes(row), rowId)
      && (forall i, column :: 0 <= i < |Rows(m, c, r.id)| ==> ShortAt(Rows(m, c, r.id)[i], column))
      && c.nextPageId + 1 + |IndexesOn(c.relations, r.id)| * (|Rows(m, c, r.id)| + 2) <= U64_MAX
    requires forall column :: ShortAt(HeapRow(rowId, RowBytes(row)), column)
    ensures InsertGoes(m, c, forest, floats, table, values)
  {
    hide Utf8, HeapTakes, Placed, ShortTrees, ShortAt, RowStoresAs, Encodable, RowBytes, TakeAll, RelationByName, IndexesOn,
      RoomAmong, Rows, SqlInv, RelationInv, Disjoint, NamesInv;
    var r, bytes := RelationByName(c, table).value, RowBytes(row);
    ByNameIsById(c, table);
    IndexesShort(m, c, forest, r);
    ShortTreesTake(forest, IndexesOn(c.relations, r.id), r.columns, HeapRow(rowId, bytes),
                   if RoomAmong(m, r.storage.pages, bytes) then c.nextPageId else c.nextPageId + 1, |Rows(m, c, r.id)|);
    assert RowGoesAt(m, c, forest, r, row, rowId);
  }
}
