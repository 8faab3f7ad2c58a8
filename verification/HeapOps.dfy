/** What creating a table and inserting a row do to a page map and its catalog, staged or direct alike. */
module HeapOps {
  import opened Core
  import opened CatalogModel
  import opened CatalogCodec
  import opened SlottedModel
  import opened PageModel
  import opened BTreeModel
  import opened BTreeHeap
  import opened DbModel

  /** Pages and catalog after an operation, and what it returned. */
  datatype Staged<+T> = Staged(pages: PageMap, catalog: Catalog, result: Result<T>)

  /** The catalog record fits page 0. */
  predicate Storable(c: Catalog) {
    CatalogCodec.Encodable(c) && |CatalogBytes(c)| <= NODE_CAPACITY
  }

  lemma StorableSize(c: Catalog)
    ensures Storable(c) <==> CatalogCodec.Encodable(c) && CatalogLen(c) <= NODE_CAPACITY
  {
    hide CatalogBytes;
    CatalogLength(c);
  }

  /** A relation can be added while its record still fits page 0. */
  lemma StorableAdded(c: Catalog, c': Catalog, r: RelationInfo)
    requires Storable(c) && Added(c, c', r) && RelationFits(r)
    ensures Storable(c') <==> CatalogLen(c) + RelationLen(r) <= NODE_CAPACITY
  {
    hide CatalogBytes, RelationLen, RelationFits;
    StorableSize(c);
    StorableSize(c');
    RelationsLenConcat(c.relations, [r]);
    RelationsLenOne(r);
    RelationsLength(c'.relations);
    if CatalogLen(c') <= NODE_CAPACITY {
      assert forall i :: 0 <= i < |c'.relations| ==> RelationFits(c'.relations[i]);
    }
  }

  /** One relation's storage replaced: the record grows by what the storage grows. */
  lemma StorableUpdated(c: Catalog, c': Catalog, i: nat, storage: StorageObject)
    requires Storable(c) && i < |c.relations|
    requires c'.relations == c.relations[i := c.relations[i].(storage := storage)] && c'.extensions == c.extensions
    requires storage.BPlusTree? ==> |storage.columnName| <= U16_MAX
    ensures Storable(c') <==> CatalogLen(c) - StorageLen(c.relations[i].storage) + StorageLen(storage) <= NODE_CAPACITY
  {
    hide CatalogBytes, Utf8, CatalogCodec.Encodable, RelationsLen;
    StorableSize(c);
    StorableSize(c');
    RelationsLenUpdate(c.relations, i, c.relations[i].(storage := storage));
    if CatalogLen(c') <= NODE_CAPACITY {
      OneLen(c'.relations, i);
      UpdatedFits(c, c', i, storage);
    }
  }

  lemma OneLen(relations: seq<RelationInfo>, i: nat)
    requires i < |relations|
    ensures RelationLen(relations[i]) <= RelationsLen(relations)
  {
    hide RelationLen;
    assert relations == relations[..i] + relations[i..];
    RelationsLenConcat(relations[..i], relations[i..]);
  }

  lemma UpdatedFits(c: Catalog, c': Catalog, i: nat, storage: StorageObject)
    requires CatalogCodec.Encodable(c) && i < |c.relations|
    requires c'.relations == c.relations[i := c.relations[i].(storage := storage)] && c'.extensions == c.extensions
    requires storage.BPlusTree? ==> |storage.columnName| <= U16_MAX
    requires RelationLen(c'.relations[i]) <= NODE_CAPACITY
    ensures CatalogCodec.Encodable(c')
  {
    hide Utf8, ColumnFits, ExtensionFits;
    assert RelationFits(c.relations[i]);
    assert RelationFits(c'.relations[i]);
  }

  /** The last step of a metadata operation: page 0 takes the catalog, or the operation fails. */
  function SaveCatalog<T>(m: PageMap, c: Catalog, value: T): Staged<T> {
    if Storable(c) then Staged(m[CATALOG_PAGE_ID := CatalogPage(c)], c, Ok(value)) else Staged(m, c, Err(User))
  }

  function CreateTable(m: PageMap, c: Catalog, name: Text, columns: seq<ColumnDef>): Staged<RelationId> {
    var change := CreateTableMetadata(c, name, columns);
    match change.result
    case Err(error) => Staged(m, change.catalog, Err(error))
    case Ok((id, page)) => SaveCatalog(m[page := HeapPage(page, EMPTY)], change.catalog, id)
  }

  /** The first page with room for `bytes`, or the page count. */
  ghost function FirstRoom(m: PageMap, pages: seq<PageId>, bytes: Bytes): (i: nat)
    requires HeapPagesAt(m, pages)
    ensures i <= |pages|
    ensures i < |pages| ==> HeapPageAt(m, pages[i]) && HasRoom(m[pages[i]].rows, bytes)
    ensures forall j :: 0 <= j < i ==> HeapPageAt(m, pages[j]) && !HasRoom(m[pages[j]].rows, bytes)
  {
    if pages == [] then 0
    else
      assert HeapPageAt(m, pages[0]);
      if HasRoom(m[pages[0]].rows, bytes) then 0 else 1 + FirstRoom(m, pages[1..], bytes)
  }

  lemma {:induction false} FirstRoomAt(m: PageMap, pages: seq<PageId>, bytes: Bytes, i: nat)
    requires HeapPagesAt(m, pages) && i <= |pages|
    requires forall j :: 0 <= j < i ==> HeapPageAt(m, pages[j]) && !HasRoom(m[pages[j]].rows, bytes)
    requires i < |pages| ==> HeapPageAt(m, pages[i]) && HasRoom(m[pages[i]].rows, bytes)
    ensures FirstRoom(m, pages, bytes) == i
  {
    if i > 0 {
      assert HeapPageAt(m, pages[0]);
      forall j | 0 <= j < i - 1 ensures HeapPageAt(m, pages[1..][j]) && !HasRoom(m[pages[1..][j]].rows, bytes) {
        assert HeapPageAt(m, pages[j + 1]);
      }
      FirstRoomAt(m, pages[1..], bytes, i - 1);
    }
  }

  ghost predicate HeapReady(m: PageMap, r: RelationInfo) {
    r.kind == Table ==> r.storage.Heap? && HeapPagesAt(m, r.storage.pages)
  }

  ghost function InsertRow(m: PageMap, c: Catalog, id: RelationId, bytes: Bytes): Staged<RowId>
    requires RelationById(c, id).Some? ==> HeapReady(m, RelationById(c, id).value)
  {
    match RelationById(c, id)
    case None => Staged(m, c, Err(User))
    case Some(r) =>
      if r.kind != Table then Staged(m, c, Err(User))
      else
        var i := FirstRoom(m, r.storage.pages, bytes);
        if i < |r.storage.pages| then
          var page, rows := r.storage.pages[i], m[r.storage.pages[i]].rows;
          SoundSlots(Inserted(rows, bytes));
          Staged(m[page := HeapPage(page, Inserted(rows, bytes))], c, Ok(RowId(page, FirstDead(rows.slots))))
        else InsertRowOnNewPage(m, c, id, bytes)
  }

  function InsertRowOnNewPage(m: PageMap, c: Catalog, id: RelationId, bytes: Bytes): Staged<RowId> {
    var page := c.nextPageId;
    match Allocate(page)
    case Err(error) => Staged(m, c, Err(error))
    case Ok(next) =>
      var c1 := c.(nextPageId := next);
      if !HasRoom(EMPTY, bytes) then Staged(m, c1, Err(User))
      else
        match AppendHeapPage(c1, id, page)
        case Err(error) => Staged(m, c1, Err(error))
        case Ok(c2) => SaveCatalog(m[page := HeapPage(page, Inserted(EMPTY, bytes))], c2, RowId(page, 0))
  }

  // What the operations promise

  /** The catalog record has room for that table. */
  ghost predicate TableFits(c: Catalog, name: Text, columns: seq<ColumnDef>) {
    && TableAllowed(c, name, columns)
    && CatalogLen(c) + RelationLen(RelationInfo(c.nextRelationId, name, Table, Heap([c.nextPageId]), columns)) <= NODE_CAPACITY
  }

  /** CREATE TABLE adds exactly that table on an empty page, or is refused when the catalog cannot take it. */
  lemma CreateTableExact(m: PageMap, c: Catalog, name: Text, columns: seq<ColumnDef>)
    requires Storable(c)
    ensures var s := CreateTable(m, c, name, columns);
      if TableFits(c, name, columns) then
        && s.result == Ok(c.nextRelationId)
        && Added(c, s.catalog, RelationInfo(c.nextRelationId, name, Table, Heap([c.nextPageId]), columns))
        && s.pages == m[c.nextPageId := HeapPage(c.nextPageId, EMPTY)][CATALOG_PAGE_ID := CatalogPage(s.catalog)]
      else s.result == Err(User)
  {
    hide Storable, CreateTableMetadata, TableAllowed, Added;
    TableMetadataExact(c, name, columns);
    if TableAllowed(c, name, columns) {
      var r := RelationInfo(c.nextRelationId, name, Table, Heap([c.nextPageId]), columns);
      ColumnsFit(c, name, columns);
      StorableAdded(c, CreateTableMetadata(c, name, columns).catalog, r);
    }
  }

  lemma CreateTableNamed(m: PageMap, c: Catalog, name: Text, columns: seq<ColumnDef>)
    requires Storable(c)
    ensures TableFits(c, name, columns) ==>
      NewlyNamed(c, CreateTable(m, c, name, columns).catalog,
                 RelationInfo(c.nextRelationId, name, Table, Heap([c.nextPageId]), columns))
  {
    hide Storable, CreateTable, RelationLen, NewlyNamed, Added;
    CreateTableExact(m, c, name, columns);
    if TableFits(c, name, columns) {
      AddedLookups(c, CreateTable(m, c, name, columns).catalog,
                   RelationInfo(c.nextRelationId, name, Table, Heap([c.nextPageId]), columns));
    }
  }

  lemma ColumnsFit(c: Catalog, name: Text, columns: seq<ColumnDef>)
    requires TableAllowed(c, name, columns)
    ensures RelationFits(RelationInfo(c.nextRelationId, name, Table, Heap([c.nextPageId]), columns))
  {
  }

  ghost predicate RoomOn(m: PageMap, page: PageId, bytes: Bytes) {
    HeapPageAt(m, page) && HasRoom(m[page].rows, bytes)
  }

  ghost predicate RoomAmong(m: PageMap, pages: seq<PageId>, bytes: Bytes) {
    exists i :: 0 <= i < |pages| && RoomOn(m, pages[i], bytes)
  }

  /** Slot `k` is the lowest dead slot, or the next one when all are live. */
  predicate NextSlot(slots: seq<Slot>, k: nat) {
    k <= |slots| && (forall j :: 0 <= j < k ==> slots[j].Live?) && (k < |slots| ==> slots[k].Dead?)
  }

  /** A row goes to the first page with room, else to slot 0 of a new page. */
  ghost predicate Placed(m: PageMap, pages: seq<PageId>, free: u64, bytes: Bytes, rowId: RowId) {
    if RoomAmong(m, pages, bytes) then
      exists i :: 0 <= i < |pages| && FirstWithRoom(m, pages, bytes, i) && rowId.pageId == pages[i]
                  && NextSlot(m[pages[i]].rows.slots, rowId.slotId)
    else rowId == RowId(free, 0)
  }

  ghost predicate FirstWithRoom(m: PageMap, pages: seq<PageId>, bytes: Bytes, i: nat) {
    i < |pages| && RoomOn(m, pages[i], bytes) && forall j :: 0 <= j < i ==> !RoomOn(m, pages[j], bytes)
  }

  /** There is only one such place. */
  lemma PlacedOnce(m: PageMap, pages: seq<PageId>, free: u64, bytes: Bytes, a: RowId, b: RowId)
    requires Placed(m, pages, free, bytes, a) && Placed(m, pages, free, bytes, b)
    ensures a == b
  {
    hide HasRoom;
    if RoomAmong(m, pages, bytes) {
      var i :| 0 <= i < |pages| && FirstWithRoom(m, pages, bytes, i) && a.pageId == pages[i]
               && NextSlot(m[pages[i]].rows.slots, a.slotId);
      var j :| 0 <= j < |pages| && FirstWithRoom(m, pages, bytes, j) && b.pageId == pages[j]
               && NextSlot(m[pages[j]].rows.slots, b.slotId);
      assert i == j;
    }
  }

  /** A heap takes a row when some page has room, or when a new page and its catalog entry can be had. */
  ghost predicate HeapTakes(m: PageMap, c: Catalog, pages: seq<PageId>, bytes: Bytes) {
    || RoomAmong(m, pages, bytes)
    || (c.nextPageId < U64_MAX && |bytes| <= NODE_CAPACITY && CatalogLen(c) + 8 <= NODE_CAPACITY)
  }

  /** INSERT fails exactly when the heap cannot take the row, and otherwise places it first-fit. */
  lemma InsertRowExact(m: PageMap, c: Catalog, forest: Forest, id: RelationId, bytes: Bytes)
    requires DbInv(m, c, forest) && Storable(c)
    requires RelationById(c, id).Some? ==> HeapReady(m, RelationById(c, id).value)
    ensures var s := InsertRow(m, c, id, bytes);
      match RelationById(c, id)
      case None => s.result == Err(User)
      case Some(r) =>
        if r.storage.Heap? && HeapTakes(m, c, r.storage.pages, bytes)
        then s.result.Ok? && Placed(m, r.storage.pages, c.nextPageId, bytes, s.result.value)
             && s.catalog.nextPageId == c.nextPageId + if RoomAmong(m, r.storage.pages, bytes) then 0 else 1
        else s.result == Err(User)
  {
    hide FindId, FirstRoom, Storable, Inserted, HasRoom;
    var i := FindId(c.relations, id);
    if i < |c.relations| && c.relations[i].storage.Heap? {
      var pages := c.relations[i].storage.pages;
      assert RelationInv(c.relations[i], m, forest, c.nextPageId);
      var k := FirstRoom(m, pages, bytes);
      if k < |pages| {
        assert FirstWithRoom(m, pages, bytes, k);
      } else {
        NewPageExact(m, c, i, bytes);
      }
    } else if i < |c.relations| {
      assert RelationInv(c.relations[i], m, forest, c.nextPageId);
    }
  }

  lemma NewPageExact(m: PageMap, c: Catalog, i: nat, bytes: Bytes)
    requires Storable(c) && i < |c.relations| && FindId(c.relations, c.relations[i].id) == i
    requires c.relations[i].kind == Table && c.relations[i].storage.Heap?
    ensures var s := InsertRowOnNewPage(m, c, c.relations[i].id, bytes);
      if c.nextPageId < U64_MAX && |bytes| <= NODE_CAPACITY && CatalogLen(c) + 8 <= NODE_CAPACITY
      then s.result == Ok(RowId(c.nextPageId, 0)) && s.catalog.nextPageId == c.nextPageId + 1
      else s.result == Err(User)
  {
    hide Storable, FindId;
    var r, page := c.relations[i], c.nextPageId;
    if page < U64_MAX && HasRoom(EMPTY, bytes) {
      var c1 := c.(nextPageId := page + 1);
      var c2 := AppendHeapPage(c1, r.id, page).value;
      StorableUpdated(c, c2, i, Heap(r.storage.pages + [page]));
    }
  }

  // Rows

  /** Live rows of a relation; an index has none. */
  ghost function RowsOf(m: PageMap, r: RelationInfo): seq<HeapRow> {
    if r.storage.Heap? && HeapPagesAt(m, r.storage.pages) then Scan(m, r.storage.pages) else []
  }

  ghost function Rows(m: PageMap, c: Catalog, id: RelationId): seq<HeapRow> {
    match RelationById(c, id)
    case None => []
    case Some(r) => RowsOf(m, r)
  }

  /** `after` is `before` with `row` put in somewhere. */
  ghost predicate OneMore(before: seq<HeapRow>, after: seq<HeapRow>, row: HeapRow) {
    exists i :: 0 <= i <= |before| && after == before[..i] + [row] + before[i..]
  }

  lemma OneMoreAt(a: seq<HeapRow>, row: HeapRow, b: seq<HeapRow>)
    ensures OneMore(a + b, a + [row] + b, row)
  {
    assert (a + b)[..|a|] == a && (a + b)[|a|..] == b;
  }

  lemma OneMoreRight(before: seq<HeapRow>, after: seq<HeapRow>, row: HeapRow, b: seq<HeapRow>)
    requires OneMore(before, after, row)
    ensures OneMore(before + b, after + b, row)
  {
    var i :| 0 <= i <= |before| && after == before[..i] + [row] + before[i..];
    OneMoreAt(before[..i], row, before[i..] + b);
    assert before[..i] + (before[i..] + b) == before + b;
    assert before[..i] + [row] + (before[i..] + b) == after + b;
  }

  lemma OneMoreLeft(a: seq<HeapRow>, before: seq<HeapRow>, after: seq<HeapRow>, row: HeapRow)
    requires OneMore(before, after, row)
    ensures OneMore(a + before, a + after, row)
  {
    var i :| 0 <= i <= |before| && after == before[..i] + [row] + before[i..];
    OneMoreAt(a + before[..i], row, before[i..]);
    assert a + before[..i] + before[i..] == a + before;
    assert a + before[..i] + [row] + before[i..] == a + after;
  }

  /** The slots below `n` that agree list the same rows. */
  lemma {:induction false} SlotRowsSame(page: PageId, s: seq<Slot>, s': seq<Slot>, n: nat)
    requires n <= |s| <= U16_MAX && n <= |s'| <= U16_MAX
    requires forall j :: 0 <= j < n ==> s'[j] == s[j]
    ensures SlotRows(page, s', n) == SlotRows(page, s, n)
  {
    if n > 0 {
      SlotRowsSame(page, s, s', n - 1);
    }
  }

  /** Reviving dead slot `i` puts one row in. */
  lemma {:induction false} ReviveSlot(page: PageId, s: seq<Slot>, i: nat, record: Bytes, n: nat)
    requires i < n <= |s| <= U16_MAX && s[i].Dead?
    ensures OneMore(SlotRows(page, s, n), SlotRows(page, s[i := Live(record)], n), HeapRow(RowId(page, i), record))
  {
    var s', row := s[i := Live(record)], HeapRow(RowId(page, i), record);
    if n == i + 1 {
      SlotRowsSame(page, s, s', i);
      OneMoreAt(SlotRows(page, s, i), row, []);
      assert SlotRows(page, s, i) + [] == SlotRows(page, s, i);
      assert SlotRows(page, s', n) == SlotRows(page, s, i) + [row] + [];
    } else {
      ReviveSlot(page, s, i, record, n - 1);
      var last := if s[n - 1].Live? then [HeapRow(RowId(page, n - 1), s[n - 1].record)] else [];
      OneMoreRight(SlotRows(page, s, n - 1), SlotRows(page, s', n - 1), row, last);
    }
  }

  lemma InsertedRows(page: PageId, p: Slotted, record: Bytes)
    requires p.Sound() && HasRoom(p, record)
    ensures FirstDead(p.slots) <= U16_MAX
    ensures OneMore(PageRows(page, p), PageRows(page, Inserted(p, record)), HeapRow(RowId(page, FirstDead(p.slots)), record))
  {
    var i, q := FirstDead(p.slots), Inserted(p, record);
    SoundSlots(p);
    SoundSlots(q);
    if i < |p.slots| {
      ReviveSlot(page, p.slots, i, record, |p.slots|);
    } else {
      var rows := SlotRows(page, p.slots, i);
      SlotRowsSame(page, p.slots, q.slots, i);
      OneMoreAt(rows, HeapRow(RowId(page, i), record), []);
      assert rows + [] == rows;
      assert SlotRows(page, q.slots, i + 1) == rows + [HeapRow(RowId(page, i), record)] + [];
    }
  }

  /** Filling one page of a heap puts its new row into the scan. */
  lemma {:induction false} ScanOneMore(m: PageMap, m': PageMap, pages: seq<PageId>, i: nat, row: HeapRow)
    requires HeapPagesAt(m, pages) && HeapPagesAt(m', pages) && NoRepeats(pages) && i < |pages|
    requires forall j :: 0 <= j < |pages| && j != i ==> m'[pages[j]] == m[pages[j]]
    requires OneMore(PageRows(pages[i], m[pages[i]].rows), PageRows(pages[i], m'[pages[i]].rows), row)
    ensures OneMore(Scan(m, pages), Scan(m', pages), row)
  {
    hide PageRows, OneMore;
    var first, first' := PageRows(pages[0], m[pages[0]].rows), PageRows(pages[0], m'[pages[0]].rows);
    var rest := pages[1..];
    if i == 0 {
      ScanKept(m, m', rest);
      OneMoreRight(first, first', row, Scan(m, rest));
    } else {
      ScanOneMore(m, m', rest, i - 1, row);
      OneMoreLeft(first, Scan(m, rest), Scan(m', rest), row);
    }
  }

  lemma {:induction false} ScanConcat(m: PageMap, a: seq<PageId>, b: seq<PageId>)
    requires HeapPagesAt(m, a) && HeapPagesAt(m, b)
    ensures HeapPagesAt(m, a + b) && Scan(m, a + b) == Scan(m, a) + Scan(m, b)
  {
    assert HeapPagesAt(m, a + b);
    if a == [] {
      assert a + b == b;
    } else {
      ScanConcat(m, a[1..], b);
      assert (a + b)[0] == a[0] && (a + b)[1..] == a[1..] + b;
      var first := PageRows(a[0], m[a[0]].rows);
      assert first + (Scan(m, a[1..]) + Scan(m, b)) == first + Scan(m, a[1..]) + Scan(m, b);
    }
  }

  // What the operations keep

  /** Every relation but `id` scans as before. */
  ghost predicate OtherRowsKept(m: PageMap, c: Catalog, m': PageMap, c': Catalog, id: RelationId) {
    forall other :: other != id ==> Rows(m', c', other) == Rows(m, c, other)
  }

  lemma RowsUntouched(m: PageMap, m': PageMap, r: RelationInfo, forest: Forest, free: u64)
    requires RelationInv(r, m, forest, free) && Untouched(m, m', Owned(r, forest))
    ensures RowsOf(m', r) == RowsOf(m, r)
  {
    if r.storage.Heap? {
      var pages := r.storage.pages;
      forall i | 0 <= i < |pages| ensures pages[i] in m' && m'[pages[i]] == m[pages[i]] {
        assert HeapPageAt(m, pages[i]) && pages[i] in Owned(r, forest);
      }
      ScanKept(m, m', pages);
    }
  }

  lemma UpdateKeepsRows(m: PageMap, m': PageMap, c: Catalog, c': Catalog, forest: Forest, i: nat, r': RelationInfo)
    requires DbInv(m, c, forest) && i < |c.relations| && SameSchema(c.relations[i], r')
    requires c'.relations == c.relations[i := r'] && c'.nextRelationId == c.nextRelationId
    requires LocalTo(m, m', Owned(c.relations[i], forest), c.nextPageId)
    ensures OtherRowsKept(m, c, m', c', r'.id)
    ensures Rows(m', c', r'.id) == RowsOf(m', r')
  {
    NamesKept(c, c', i, r');
    FindIdUnique(c'.relations, i);
    forall other | other != r'.id ensures Rows(m', c', other) == Rows(m, c, other) {
      var j := FindId(c.relations, other);
      assert FindId(c'.relations, other) == j;
      if j < |c.relations| {
        OthersUntouched(m, m', c, forest, i, j);
        assert RelationInv(c.relations[j], m, forest, c.nextPageId);
        RowsUntouched(m, m', c.relations[j], forest, c.nextPageId);
      }
    }
  }

  lemma AddKeepsRows(m: PageMap, m': PageMap, c: Catalog, c': Catalog, forest: Forest, r: RelationInfo)
    requires DbInv(m, c, forest) && IndexInv(c, r)
    requires c'.relations == c.relations + [r] && r.id == c.nextRelationId && c'.nextRelationId == c.nextRelationId + 1
    requires LocalTo(m, m', {}, c.nextPageId)
    ensures OtherRowsKept(m, c, m', c', r.id)
    ensures Rows(m', c', r.id) == RowsOf(m', r)
    ensures RelationById(c, r.id) == None
  {
    AddedNames(c, c', r);
    forall other | other != r.id ensures Rows(m', c', other) == Rows(m, c, other) {
      var j := FindId(c.relations, other);
      assert RelationById(c', other) == RelationById(c, other);
      if j < |c.relations| {
        assert RelationInv(c.relations[j], m, forest, c.nextPageId);
        RowsUntouched(m, m', c.relations[j], forest, c.nextPageId);
      }
    }
  }

  /** A new table is empty and disturbs nothing. */
  lemma CreateTableKeeps(m: PageMap, c: Catalog, forest: Forest, name: Text, columns: seq<ColumnDef>)
    requires DbInv(m, c, forest)
    requires CreateTable(m, c, name, columns).result.Ok?
    ensures var s := CreateTable(m, c, name, columns);
      && DbInv(s.pages, s.catalog, forest)
      && RelationById(c, s.result.value) == None
      && Rows(s.pages, s.catalog, s.result.value) == []
      && OtherRowsKept(m, c, s.pages, s.catalog, s.result.value)
  {
    hide Scan, FindId, FindName, FindColumn, CatalogBytes;
    var s, page := CreateTable(m, c, name, columns), c.nextPageId;
    var r := RelationInfo(c.nextRelationId, name, Table, Heap([page]), columns);
    assert s.pages[page] == HeapPage(page, EMPTY);
    assert HeapPageAt(s.pages, page);
    AddRelationInv(m, s.pages, c, s.catalog, forest, forest, r);
    AddKeepsRows(m, s.pages, c, s.catalog, forest, r);
    EmptyScan(s.pages, page);
  }

  lemma EmptyScan(m: PageMap, page: PageId)
    requires HeapPageAt(m, page) && m[page].rows == EMPTY
    ensures HeapPagesAt(m, [page]) && Scan(m, [page]) == []
  {
    assert Scan(m, [page]) == PageRows(page, EMPTY) + Scan(m, []);
  }

  /** A row insert adds that row to its table, at the row id returned, and disturbs nothing else. */
  lemma InsertRowKeeps(m: PageMap, c: Catalog, forest: Forest, id: RelationId, bytes: Bytes)
    requires DbInv(m, c, forest)
    requires RelationById(c, id).Some? ==> HeapReady(m, RelationById(c, id).value)
    requires InsertRow(m, c, id, bytes).result.Ok?
    ensures var s := InsertRow(m, c, id, bytes);
      && DbInv(s.pages, s.catalog, forest)
      && OneMore(Rows(m, c, id), Rows(s.pages, s.catalog, id), HeapRow(s.result.value, bytes))
      && OtherRowsKept(m, c, s.pages, s.catalog, id)
  {
    hide Scan, FindId, FirstRoom, CatalogBytes, FirstDead;
    var i := FindId(c.relations, id);
    var r := c.relations[i];
    assert RelationInv(r, m, forest, c.nextPageId);
    if FirstRoom(m, r.storage.pages, bytes) < |r.storage.pages| {
      FillPageKeeps(m, c, forest, i, bytes, FirstRoom(m, r.storage.pages, bytes));
    } else {
      NewPageKeeps(m, c, forest, i, bytes);
    }
  }

  lemma FillPageKeeps(m: PageMap, c: Catalog, forest: Forest, i: nat, bytes: Bytes, k: nat)
    requires DbInv(m, c, forest) && i < |c.relations| && c.relations[i].storage.Heap? && k < |c.relations[i].storage.pages|
    requires var page := c.relations[i].storage.pages[k]; HeapPageAt(m, page) && HasRoom(m[page].rows, bytes)
    ensures var r := c.relations[i];
      var page := r.storage.pages[k];
      var rows := m[page].rows;
      var m' := m[page := HeapPage(page, Inserted(rows, bytes))];
      && FirstDead(rows.slots) <= U16_MAX
      && DbInv(m', c, forest)
      && OneMore(Rows(m, c, r.id), Rows(m', c, r.id), HeapRow(RowId(page, FirstDead(rows.slots)), bytes))
      && OtherRowsKept(m, c, m', c, r.id)
  {
    hide Scan, FindId, FirstDead;
    var r := c.relations[i];
    var pages := r.storage.pages;
    var page, rows := pages[k], m[pages[k]].rows;
    InsertedRows(page, rows, bytes);
    var row := HeapRow(RowId(page, FirstDead(rows.slots)), bytes);
    var m' := m[page := HeapPage(page, Inserted(rows, bytes))];
    assert RelationInv(r, m, forest, c.nextPageId);
    forall j | 0 <= j < |pages| ensures HeapPageAt(m', pages[j]) {
      assert HeapPageAt(m, pages[j]);
    }
    assert RelationInv(r, m', forest, c.nextPageId);
    assert c.relations == c.relations[i := r];
    UpdateRelation(m, m', c, c, forest, forest, i, r);
    UpdateKeepsRows(m, m', c, c, forest, i, r);
    FindIdUnique(c.relations, i);
    ScanOneMore(m, m', pages, k, row);
  }

  lemma NewPageKeeps(m: PageMap, c: Catalog, forest: Forest, i: nat, bytes: Bytes)
    requires DbInv(m, c, forest) && i < |c.relations|
    requires InsertRowOnNewPage(m, c, c.relations[i].id, bytes).result.Ok?
    ensures var s := InsertRowOnNewPage(m, c, c.relations[i].id, bytes);
      && DbInv(s.pages, s.catalog, forest)
      && OneMore(Rows(m, c, c.relations[i].id), Rows(s.pages, s.catalog, c.relations[i].id), HeapRow(s.result.value, bytes))
      && OtherRowsKept(m, c, s.pages, s.catalog, c.relations[i].id)
  {
    hide Scan, FindId, FirstDead, CatalogBytes;
    var r, page := c.relations[i], c.nextPageId;
    var s := InsertRowOnNewPage(m, c, r.id, bytes);
    FindIdUnique(c.relations, i);
    assert RelationInv(r, m, forest, page);
    var pages := r.storage.pages;
    var r' := r.(storage := Heap(pages + [page]));
    forall j | 0 <= j < |pages| ensures 0 < pages[j] < page && pages[j] in m {
      assert HeapPageAt(m, pages[j]) && pages[j] in Owned(r, forest);
    }
    NewPageHeap(m, s.pages, pages, page, bytes);
    UpdateRelation(m, s.pages, c, s.catalog, forest, forest, i, r');
    UpdateKeepsRows(m, s.pages, c, s.catalog, forest, i, r');
  }

  /** A heap that takes a fresh page with one row on it. */
  lemma NewPageHeap(m: PageMap, m': PageMap, pages: seq<PageId>, page: PageId, bytes: Bytes)
    requires HeapPagesAt(m, pages) && NoRepeats(pages) && page !in pages && HasRoom(EMPTY, bytes)
    requires forall i :: 0 <= i < |pages| ==> pages[i] in m' && m'[pages[i]] == m[pages[i]]
    requires page in m' && m'[page] == HeapPage(page, Inserted(EMPTY, bytes))
    ensures NoRepeats(pages + [page]) && HeapPagesAt(m', pages + [page])
    ensures OneMore(Scan(m, pages), Scan(m', pages + [page]), HeapRow(RowId(page, 0), bytes))
  {
    var row := HeapRow(RowId(page, 0), bytes);
    ScanKept(m, m', pages);
    assert HeapPageAt(m', page);
    ScanConcat(m', pages, [page]);
    InsertedRows(page, EMPTY, bytes);
    assert PageRows(page, Inserted(EMPTY, bytes)) == [row];
    assert Scan(m', [page]) == PageRows(page, m'[page].rows) + Scan(m', []);
    OneMoreAt(Scan(m, pages), row, []);
    assert Scan(m, pages) + [] == Scan(m, pages);
    assert Scan(m, pages) + [row] + [] == Scan(m', pages + [page]);
  }
}
