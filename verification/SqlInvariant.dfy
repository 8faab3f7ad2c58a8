/** Tables hold typed rows, and each index holds exactly the keys of its table's rows. */
module SqlInvariant {
  import opened Core
  import opened CatalogModel
  import opened IndexModel
  import opened BTreeModel
  import opened BTreeHeap
  import opened BTreeTheorems
  import opened DbModel
  import opened HeapOps
  import opened HeapReads
  import opened IndexOps
  import opened RowCodec
  import opened SqlModel
  import opened Transactions

  /** Position of the indexed column in the table behind index `r`. */
  function IndexedColumn(c: Catalog, r: RelationInfo): nat
    requires r.storage.BPlusTree?
  {
    match RelationById(c, r.storage.tableId)
    case None => 0
    case Some(table) => FindColumn(table.columns, r.storage.columnName)
  }

  /** Indexes part way through an operation, and the rows each has taken in so far. */
  type Lag = map<RelationId, seq<HeapRow>>

  ghost function IndexedRows(m: PageMap, c: Catalog, lag: Lag, r: RelationInfo): seq<HeapRow>
    requires r.storage.BPlusTree?
  {
    if r.id in lag then lag[r.id] else Rows(m, c, r.storage.tableId)
  }

  /** The tree of index `r` holds the entries of those rows, no more and no fewer. */
  ghost predicate IndexAgrees(m: PageMap, c: Catalog, forest: Forest, lag: Lag, r: RelationInfo) {
    r.storage.BPlusTree? ==>
      r.id in forest && Contents(forest[r.id]) == multiset(EntriesOf(IndexedRows(m, c, lag, r), IndexedColumn(c, r)))
  }

  ghost predicate Agree(m: PageMap, c: Catalog, forest: Forest, lag: Lag) {
    forall i :: 0 <= i < |c.relations| ==> IndexAgrees(m, c, forest, lag, c.relations[i])
  }

  /** Only indexable columns are indexed. */
  ghost predicate IndexTyped(c: Catalog, r: RelationInfo) {
    r.storage.BPlusTree? ==>
      match RelationById(c, r.storage.tableId)
      case None => false
      case Some(table) =>
        IndexedColumn(c, r) < |table.columns| && Indexable(table.columns[IndexedColumn(c, r)].typeName)
  }

  ghost predicate TableTyped(m: PageMap, c: Catalog, r: RelationInfo) {
    r.storage.Heap? ==> AllRowsTyped(r.columns, Rows(m, c, r.id))
  }

  ghost predicate AllTyped(m: PageMap, c: Catalog) {
    && (forall i :: 0 <= i < |c.relations| ==> IndexTyped(c, c.relations[i]))
    && (forall i :: 0 <= i < |c.relations| ==> TableTyped(m, c, c.relations[i]))
  }

  ghost predicate SqlInv(m: PageMap, c: Catalog, forest: Forest) {
    Agree(m, c, forest, map[]) && AllTyped(m, c)
  }

  // Schema changes of one step

  /** Same relations up to the pages they own. */
  ghost predicate SchemaKept(c: Catalog, c': Catalog) {
    |c'.relations| == |c.relations| && forall i :: 0 <= i < |c.relations| ==> SameSchema(c.relations[i], c'.relations[i])
  }

  lemma {:induction false} FindIdKept(a: seq<RelationInfo>, b: seq<RelationInfo>, id: RelationId)
    requires |a| == |b| && forall i :: 0 <= i < |a| ==> b[i].id == a[i].id
    ensures FindId(a, id) == FindId(b, id)
  {
    if a != [] {
      FindIdKept(a[1..], b[1..], id);
    }
  }

  lemma LookupKept(c: Catalog, c': Catalog, id: RelationId)
    requires SchemaKept(c, c')
    ensures FindId(c'.relations, id) == FindId(c.relations, id)
    ensures RelationById(c, id).None? <==> RelationById(c', id).None?
    ensures RelationById(c, id).Some? ==> SameSchema(RelationById(c, id).value, RelationById(c', id).value)
  {
    forall i | 0 <= i < |c.relations| ensures c'.relations[i].id == c.relations[i].id {
      assert SameSchema(c.relations[i], c'.relations[i]);
    }
    FindIdKept(c.relations, c'.relations, id);
  }

  lemma ColumnKept(c: Catalog, c': Catalog, i: nat)
    requires SchemaKept(c, c') && i < |c.relations| && c.relations[i].storage.BPlusTree?
    ensures c'.relations[i].storage.BPlusTree? && IndexedColumn(c', c'.relations[i]) == IndexedColumn(c, c.relations[i])
    ensures IndexTyped(c, c.relations[i]) ==> IndexTyped(c', c'.relations[i])
  {
    hide FindId, FindColumn;
    assert SameSchema(c.relations[i], c'.relations[i]);
    LookupKept(c, c', c.relations[i].storage.tableId);
  }

  // Keeping it

  /** The entry of one more row. */
  lemma EntriesOneMore(before: seq<HeapRow>, after: seq<HeapRow>, row: HeapRow, column: nat)
    requires OneMore(before, after, row)
    ensures multiset(EntriesOf(after, column)) == multiset(EntriesOf(before, column)) + multiset(EntryOf(row, column))
  {
    hide EntriesOf, EntryOf;
    var i :| 0 <= i <= |before| && after == before[..i] + [row] + before[i..];
    EntriesConcat(before[..i] + [row], before[i..], column);
    EntriesConcat(before[..i], [row], column);
    EntriesConcat(before[..i], before[i..], column);
    EntriesOne(row, column);
    assert before[..i] + before[i..] == before;
  }

  /** A row inserted into table `id`: its indexes lag behind, all others agree still. */
  lemma RowInsertedLags(m: PageMap, m': PageMap, c: Catalog, c': Catalog, forest: Forest, id: RelationId, lag: Lag)
    requires Agree(m, c, forest, map[]) && SchemaKept(c, c') && OtherRowsKept(m, c, m', c', id)
    requires forall i :: 0 <= i < |c.relations| && c.relations[i].storage.BPlusTree? && c.relations[i].storage.tableId == id ==>
      c.relations[i].id in lag
    requires forall x :: x in lag ==> lag[x] == Rows(m, c, id)
    requires forall i :: 0 <= i < |c.relations| && c.relations[i].id in lag ==>
      c.relations[i].storage.BPlusTree? && c.relations[i].storage.tableId == id
    ensures Agree(m', c', forest, lag)
  {
    hide Rows, EntriesOf, Contents;
    forall i | 0 <= i < |c'.relations| && c'.relations[i].storage.BPlusTree?
      ensures IndexAgrees(m', c', forest, lag, c'.relations[i])
    {
      assert IndexAgrees(m, c, forest, map[], c.relations[i]);
      assert SameSchema(c.relations[i], c'.relations[i]);
      ColumnKept(c, c', i);
    }
  }

  /** Index `i` takes in what it lacked: its tree now holds the entries of `rows`. */
  lemma IndexCaughtUp(
      m: PageMap, m': PageMap, c: Catalog, c': Catalog, forest: Forest, forest': Forest, i: nat, lag: Lag, lag': Lag,
      rows: seq<HeapRow>)
    requires Agree(m, c, forest, lag) && NamesInv(c) && SchemaKept(c, c') && RowsKept(m, c, m', c')
    requires i < |c.relations| && c.relations[i].storage.BPlusTree?
    requires c.relations[i].id in forest'
    requires forall x :: x in forest && x != c.relations[i].id ==> x in forest' && forest'[x] == forest[x]
    requires Contents(forest'[c.relations[i].id]) == multiset(EntriesOf(rows, IndexedColumn(c, c.relations[i])))
    requires forall x :: x != c.relations[i].id ==> (x in lag <==> x in lag') && (x in lag ==> lag'[x] == lag[x])
    requires IndexedRows(m', c', lag', c.relations[i]) == rows
    ensures Agree(m', c', forest', lag')
  {
    hide Rows, EntriesOf, Contents;
    forall j | 0 <= j < |c'.relations| && c'.relations[j].storage.BPlusTree?
      ensures IndexAgrees(m', c', forest', lag', c'.relations[j])
    {
      assert IndexAgrees(m, c, forest, lag, c.relations[j]);
      assert SameSchema(c.relations[j], c'.relations[j]);
      ColumnKept(c, c', j);
      if j != i {
        assert c.relations[j].id != c.relations[i].id;
        assert Rows(m', c', c.relations[j].storage.tableId) == Rows(m, c, c.relations[j].storage.tableId);
      }
    }
  }

  lemma TypedKept(m: PageMap, m': PageMap, c: Catalog, c': Catalog)
    requires AllTyped(m, c) && SchemaKept(c, c') && RowsKept(m, c, m', c')
    ensures AllTyped(m', c')
  {
    hide Rows, AllRowsTyped;
    forall i | 0 <= i < |c'.relations| ensures IndexTyped(c', c'.relations[i]) && TableTyped(m', c', c'.relations[i]) {
      assert IndexTyped(c, c.relations[i]) && TableTyped(m, c, c.relations[i]);
      assert SameSchema(c.relations[i], c'.relations[i]);
      if c.relations[i].storage.BPlusTree? {
        ColumnKept(c, c', i);
      }
    }
  }

  lemma TypedOneMore(columns: seq<ColumnDef>, before: seq<HeapRow>, after: seq<HeapRow>, row: HeapRow)
    requires AllRowsTyped(columns, before) && OneMore(before, after, row)
    requires ParseRow(row.bytes).Some? && RowTyped(columns, ParseRow(row.bytes).value)
    ensures AllRowsTyped(columns, after)
  {
    hide ParseRow, RowTyped;
    var i :| 0 <= i <= |before| && after == before[..i] + [row] + before[i..];
    forall j | 0 <= j < |after|
      ensures ParseRow(after[j].bytes).Some? && RowTyped(columns, ParseRow(after[j].bytes).value)
    {
      assert after[j] == if j < i then before[j] else if j == i then row else before[j - 1];
    }
  }

  lemma TypedInsert(m: PageMap, m': PageMap, c: Catalog, c': Catalog, i: nat, row: HeapRow)
    requires AllTyped(m, c) && SchemaKept(c, c') && NamesInv(c)
    requires i < |c.relations| && OtherRowsKept(m, c, m', c', c.relations[i].id) && c.relations[i].storage.Heap?
    requires OneMore(Rows(m, c, c.relations[i].id), Rows(m', c', c.relations[i].id), row)
    requires ParseRow(row.bytes).Some? && RowTyped(c.relations[i].columns, ParseRow(row.bytes).value)
    ensures AllTyped(m', c')
  {
    hide Rows, ParseRow, RowTyped, AllRowsTyped, OneMore;
    var columns := c.relations[i].columns;
    assert TableTyped(m, c, c.relations[i]) && SameSchema(c.relations[i], c'.relations[i]);
    TypedOneMore(columns, Rows(m, c, c.relations[i].id), Rows(m', c', c.relations[i].id), row);
    forall j | 0 <= j < |c'.relations| ensures IndexTyped(c', c'.relations[j]) && TableTyped(m', c', c'.relations[j]) {
      assert IndexTyped(c, c.relations[j]) && TableTyped(m, c, c.relations[j]);
      assert SameSchema(c.relations[j], c'.relations[j]);
      if c.relations[j].storage.BPlusTree? {
        ColumnKept(c, c', j);
      }
      assert j != i ==> c.relations[j].id != c.relations[i].id;
    }
  }

  // A relation added

  lemma AddKeepsTyped(m: PageMap, m': PageMap, c: Catalog, c': Catalog, r: RelationInfo)
    requires AllTyped(m, c) && NamesInv(c) && c'.relations == c.relations + [r]
    requires r.id == c.nextRelationId && c'.nextRelationId == c.nextRelationId + 1 && IndexInv(c, r) && IndexTyped(c, r)
    requires OtherRowsKept(m, c, m', c', r.id) && Rows(m', c', r.id) == []
    ensures AllTyped(m', c')
  {
    hide Rows, FindId, FindColumn;
    AddedNames(c, c', r);
    forall i | 0 <= i < |c'.relations| ensures IndexTyped(c', c'.relations[i]) && TableTyped(m', c', c'.relations[i]) {
      if i < |c.relations| {
        assert IndexTyped(c, c.relations[i]) && TableTyped(m, c, c.relations[i]);
        assert IndexInv(c, c.relations[i]);
      }
    }
  }

  /** Nothing was indexed on a relation that did not exist. */
  lemma AddKeepsAgree(m: PageMap, m': PageMap, c: Catalog, c': Catalog, forest: Forest, forest': Forest, r: RelationInfo, lag: Lag)
    requires Agree(m, c, forest, map[]) && NamesInv(c) && c'.relations == c.relations + [r]
    requires r.id == c.nextRelationId && c'.nextRelationId == c.nextRelationId + 1 && IndexInv(c, r)
    requires OtherRowsKept(m, c, m', c', r.id) && RelationById(c, r.id) == None
    requires forall x :: x in forest && x != r.id ==> x in forest' && forest'[x] == forest[x]
    requires r.storage.Heap? ==> lag == map[]
    requires r.storage.BPlusTree? ==> lag == map[r.id := []] && r.id in forest' && Contents(forest'[r.id]) == multiset{}
    ensures Agree(m', c', forest', lag)
  {
    hide Rows, FindId, FindColumn, Contents;
    AddedNames(c, c', r);
    forall i | 0 <= i < |c'.relations| && c'.relations[i].storage.BPlusTree?
      ensures IndexAgrees(m', c', forest', lag, c'.relations[i])
    {
      if i < |c.relations| {
        assert IndexAgrees(m, c, forest, map[], c.relations[i]);
        assert IndexInv(c, c.relations[i]) && c.relations[i].id < c.nextRelationId;
        assert c.relations[i].storage.tableId != r.id;
        assert IndexedColumn(c', c'.relations[i]) == IndexedColumn(c, c.relations[i]);
      }
    }
  }
}
