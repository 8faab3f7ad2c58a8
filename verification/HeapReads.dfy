/** Reading heap tables page by page. */
module HeapReads {
  import opened Core
  import opened CatalogModel
  import opened SlottedModel
  import opened PageModel
  import opened BTreeHeap
  import opened DbModel
  import opened HeapOps
  import opened StagedStore

  ghost predicate ReadyFor(m: PageMap, c: Catalog, id: RelationId) {
    RelationById(c, id).Some? ==> HeapReady(m, RelationById(c, id).value)
  }

  /** The table behind an id, or User for an unknown id or an index. */
  function TableOf(c: Catalog, id: RelationId): Result<RelationInfo> {
    match RelationById(c, id)
    case None => Err(User)
    case Some(r) => if r.kind != Table then Err(User) else Ok(r)
  }

  lemma DbReady(m: PageMap, c: Catalog, forest: Forest, id: RelationId)
    requires DbInv(m, c, forest)
    ensures ReadyFor(m, c, id)
    ensures TableOf(c, id).Ok? ==> Rows(m, c, id) == Scan(m, TableOf(c, id).value.storage.pages)
  {
    var i := FindId(c.relations, id);
    if i < |c.relations| {
      assert RelationInv(c.relations[i], m, forest, c.nextPageId);
    }
  }

  /** Live rows of one page, slot by slot. */
  method PageScan(pageId: PageId, page: Slotted) returns (rows: seq<HeapRow>)
    requires page.Sound()
    ensures rows == PageRows(pageId, page)
  {
    SoundSlots(page);
    rows := [];
    for slot := 0 to |page.slots|
      invariant rows == SlotRows(pageId, page.slots, slot)
    {
      var record := page.Record(slot);
      if record.Some? {
        rows := rows + [HeapRow(RowId(pageId, slot), record.value)];
      }
    }
  }

  /** Every live row of a table, in heap-page order. */
  method FullScan(store: StagedPages, c: Catalog, id: RelationId) returns (r: Result<seq<HeapRow>>)
    requires ReadyFor(store.View(), c, id)
    ensures match TableOf(c, id)
      case Err(error) => r == Err(error)
      case Ok(table) => r == Ok(Scan(store.View(), table.storage.pages))
  {
    match TableOf(c, id)
    case Err(error) =>
      r := Err(error);
    case Ok(table) =>
      var pages, rows: seq<HeapRow> := table.storage.pages, [];
      for i := 0 to |pages|
        invariant HeapPagesAt(store.View(), pages[..i]) && rows == Scan(store.View(), pages[..i])
      {
        assert HeapPageAt(store.View(), pages[i]);
        var loaded := store.LoadPage(pages[i]);
        match loaded
        case Err(error) =>
          return Err(error);
        case Ok(page) =>
          if !page.HeapPage? {
            return Err(Corruption);
          }
          var more := PageScan(pages[i], page.rows);
          assert HeapPagesAt(store.View(), [pages[i]]);
          ScanConcat(store.View(), pages[..i], [pages[i]]);
          assert Scan(store.View(), [pages[i]]) == more + Scan(store.View(), []);
          assert pages[..i + 1] == pages[..i] + [pages[i]];
          rows := rows + more;
      }
      assert pages[..|pages|] == pages;
      r := Ok(rows);
  }

  /** What one row address reads as: User when the table does not own the page or the page has no such slot. */
  ghost function RowAt(m: PageMap, table: RelationInfo, rowId: RowId): Result<Option<HeapRow>>
    requires table.storage.Heap? && HeapPagesAt(m, table.storage.pages)
  {
    if rowId.pageId !in table.storage.pages then Err(User)
    else
      var i :| 0 <= i < |table.storage.pages| && table.storage.pages[i] == rowId.pageId;
      assert HeapPageAt(m, table.storage.pages[i]);
      var slots := m[rowId.pageId].rows.slots;
      if rowId.slotId >= |slots| then Err(User)
      else if slots[rowId.slotId].Live? then Ok(Some(HeapRow(rowId, slots[rowId.slotId].record)))
      else Ok(None)
  }

  method ReadRow(store: StagedPages, c: Catalog, id: RelationId, rowId: RowId) returns (r: Result<Option<HeapRow>>)
    requires ReadyFor(store.View(), c, id)
    ensures match TableOf(c, id)
      case Err(error) => r == Err(error)
      case Ok(table) => r == RowAt(store.View(), table, rowId)
  {
    match TableOf(c, id)
    case Err(error) =>
      r := Err(error);
    case Ok(table) =>
      if rowId.pageId !in table.storage.pages {
        return Err(User);
      }
      ghost var i :| 0 <= i < |table.storage.pages| && table.storage.pages[i] == rowId.pageId;
      assert HeapPageAt(store.View(), table.storage.pages[i]);
      var loaded := store.LoadPage(rowId.pageId);
      match loaded
      case Err(error) =>
        r := Err(error);
      case Ok(page) =>
        if !page.HeapPage? {
          return Err(Corruption);
        }
        if rowId.slotId >= |page.rows.slots| {
          return Err(User);
        }
        var record := page.rows.Record(rowId.slotId);
        r := Ok(if record.Some? then Some(HeapRow(rowId, record.value)) else None);
  }

  // A scan and the row addresses it lists agree

  lemma {:induction false} SlotRowsAt(page: PageId, slots: seq<Slot>, n: nat, row: HeapRow)
    requires n <= |slots| <= U16_MAX
    ensures row in SlotRows(page, slots, n) <==>
            row.rowId.pageId == page && row.rowId.slotId < n && slots[row.rowId.slotId] == Live(row.bytes)
  {
    if n > 0 {
      SlotRowsAt(page, slots, n - 1, row);
    }
  }

  lemma {:induction false} ScanAt(m: PageMap, pages: seq<PageId>, row: HeapRow)
    requires HeapPagesAt(m, pages)
    ensures row in Scan(m, pages) <==>
            row.rowId.pageId in pages && HeapPageAt(m, row.rowId.pageId)
            && row.rowId.slotId < |m[row.rowId.pageId].rows.slots|
            && m[row.rowId.pageId].rows.slots[row.rowId.slotId] == Live(row.bytes)
  {
    if pages != [] {
      var first := m[pages[0]].rows;
      assert HeapPageAt(m, pages[0]);
      SoundSlots(first);
      SlotRowsAt(pages[0], first.slots, |first.slots|, row);
      ScanAt(m, pages[1..], row);
      assert row in Scan(m, pages) <==> row in PageRows(pages[0], first) || row in Scan(m, pages[1..]);
    }
  }

  // The order of a scan

  /** `x` lies on an earlier page of the heap than `y`, or in a lower slot of the same page. */
  ghost predicate LiesBefore(pages: seq<PageId>, x: RowId, y: RowId) {
    exists i, j ::
      && 0 <= i <= j < |pages| && pages[i] == x.pageId && pages[j] == y.pageId
      && (i == j ==> x.slotId < y.slotId)
  }

  lemma {:induction false} SlotRowsInOrder(page: PageId, slots: seq<Slot>, n: nat, a: nat, b: nat)
    requires n <= |slots| <= U16_MAX && a < b < |SlotRows(page, slots, n)|
    ensures var rows := SlotRows(page, slots, n);
      rows[a].rowId.pageId == rows[b].rowId.pageId == page && rows[a].rowId.slotId < rows[b].rowId.slotId
  {
    var before := SlotRows(page, slots, n - 1);
    if b < |before| {
      SlotRowsInOrder(page, slots, n - 1, a, b);
    } else {
      SlotRowsAt(page, slots, n - 1, before[a]);
    }
  }

  /** A scan lists rows in page order, and in slot order within a page. */
  lemma {:induction false} ScanInOrder(m: PageMap, pages: seq<PageId>, a: nat, b: nat)
    requires HeapPagesAt(m, pages) && a < b < |Scan(m, pages)|
    ensures LiesBefore(pages, Scan(m, pages)[a].rowId, Scan(m, pages)[b].rowId)
  {
    assert HeapPageAt(m, pages[0]);
    var slots, rest, rows := m[pages[0]].rows.slots, pages[1..], Scan(m, pages);
    SoundSlots(m[pages[0]].rows);
    var first := SlotRows(pages[0], slots, |slots|);
    if b < |first| {
      SlotRowsInOrder(pages[0], slots, |slots|, a, b);
    } else {
      var y := Scan(m, rest)[b - |first|];
      ScanAt(m, rest, y);
      if a < |first| {
        SlotRowsAt(pages[0], slots, |slots|, first[a]);
        var j :| 0 <= j < |rest| && rest[j] == y.rowId.pageId;
        assert pages[j + 1] == y.rowId.pageId;
      } else {
        ScanInOrder(m, rest, a - |first|, b - |first|);
        var x := Scan(m, rest)[a - |first|];
        var i, j :| 0 <= i <= j < |rest| && rest[i] == x.rowId.pageId && rest[j] == y.rowId.pageId
                    && (i == j ==> x.rowId.slotId < y.rowId.slotId);
        assert pages[i + 1] == x.rowId.pageId && pages[j + 1] == y.rowId.pageId;
      }
    }
  }

  /** Reading by address finds exactly the rows the scan lists. */
  lemma ReadFindsScanned(m: PageMap, table: RelationInfo, row: HeapRow)
    requires table.storage.Heap? && HeapPagesAt(m, table.storage.pages)
    ensures row in Scan(m, table.storage.pages) <==> RowAt(m, table, row.rowId) == Ok(Some(row))
  {
    ScanAt(m, table.storage.pages, row);
    if row.rowId.pageId in table.storage.pages {
      var i :| 0 <= i < |table.storage.pages| && table.storage.pages[i] == row.rowId.pageId;
      assert HeapPageAt(m, table.storage.pages[i]);
    }
  }
}
