/** Catalog and heap tables written straight to the page file, with no transaction between. */
module CatalogStores {
  import opened Core
  import opened CatalogModel
  import opened SlottedModel
  import opened PageModel
  import opened BTreeModel
  import opened BTreeHeap
  import opened StagedStore
  import opened DbModel
  import opened HeapOps
  import opened HeapReads
  import opened Transactions

  class CatalogStore {
    var pages: PageMap
    var catalog: Catalog
    ghost var forest: Forest

    constructor (pages: PageMap, catalog: Catalog, ghost forest: Forest)
      ensures this.pages == pages && this.catalog == catalog && this.forest == forest
    {
      this.pages, this.catalog, this.forest := pages, catalog, forest;
    }

    ghost predicate Sound()
      reads this
    {
      InOrder(pages, catalog, forest)
    }

    /** Write page 0. */
    method SaveCatalog() returns (r: Result<()>)
      modifies this`pages
      ensures r == if Storable(catalog) then Ok(()) else Err(User)
      ensures pages == if r.Ok? then old(pages)[CATALOG_PAGE_ID := CatalogPage(catalog)] else old(pages)
    {
      if !Storable(catalog) {
        return Err(User);
      }
      pages := pages[CATALOG_PAGE_ID := CatalogPage(catalog)];
      r := Ok(());
    }

    method CreateTable(name: Core.Text, columns: seq<ColumnDef>) returns (r: Result<RelationId>)
      requires Sound()
      modifies this
      ensures if TableFits(old(catalog), name, columns) then
          var r1 := RelationInfo(old(catalog.nextRelationId), name, Table, Heap([old(catalog.nextPageId)]), columns);
          r == Ok(r1.id) && Added(old(catalog), catalog, r1) && NewlyNamed(old(catalog), catalog, r1)
        else r == Err(User)
      ensures Staged(pages, catalog, r) == HeapOps.CreateTable(old(pages), old(catalog), name, columns)
      ensures forest == old(forest) && (r.Ok? ==> Sound())
    {
      hide DbInv, Storable, TableFits, Added, NewlyNamed;
      CreateTableExact(pages, catalog, name, columns);
      CreateTableNamed(pages, catalog, name, columns);
      ghost var m, c := pages, catalog;
      var change := CreateTableMetadata(catalog, name, columns);
      catalog := change.catalog;
      match change.result
      case Err(error) =>
        r := Err(error);
      case Ok((relationId, firstPageId)) =>
        pages := pages[firstPageId := HeapPage(firstPageId, EMPTY)];
        var saved := SaveCatalog();
        if saved.Ok? {
          CreateTableKeeps(m, c, forest, name, columns);
        }
        r := if saved.Ok? then Ok(relationId) else Err(saved.error);
    }

    ghost function RowInserted(relationId: RelationId, bytes: Bytes): Staged<RowId>
      requires Sound()
      reads this
    {
      DbReady(pages, catalog, forest, relationId);
      HeapOps.InsertRow(pages, catalog, relationId, bytes)
    }

    method InsertRow(relationId: RelationId, bytes: Bytes) returns (r: Result<RowId>)
      requires Sound()
      modifies this
      ensures Staged(pages, catalog, r) == old(RowInserted(relationId, bytes))
      ensures forest == old(forest) && (r.Ok? ==> Sound())
    {
      hide DbInv, Storable, FirstRoom, FindId, Scan;
      ghost var m, c := pages, catalog;
      DbReady(m, c, forest, relationId);
      match TableOf(catalog, relationId)
      case Err(error) =>
        r := Err(error);
      case Ok(table) =>
        var pageIds := table.storage.pages;
        for i := 0 to |pageIds|
          invariant pages == m && catalog == c && forest == old(forest)
          invariant forall j :: 0 <= j < i ==> HeapPageAt(m, pageIds[j]) && !HasRoom(m[pageIds[j]].rows, bytes)
        {
          assert HeapPageAt(m, pageIds[i]);
          var rows := pages[pageIds[i]].rows;
          if HasRoom(rows, bytes) {
            var slotId := FirstDead(rows.slots);
            FirstRoomAt(m, pageIds, bytes, i);
            SoundSlots(Inserted(rows, bytes));
            pages := pages[pageIds[i] := HeapPage(pageIds[i], Inserted(rows, bytes))];
            InsertRowKeeps(m, c, forest, relationId, bytes);
            return Ok(RowId(pageIds[i], slotId));
          }
        }
        FirstRoomAt(m, pageIds, bytes, |pageIds|);
        r := InsertRowOnNewPage(relationId, bytes);
        if r.Ok? {
          InsertRowKeeps(m, c, forest, relationId, bytes);
        }
    }

    method InsertRowOnNewPage(relationId: RelationId, bytes: Bytes) returns (r: Result<RowId>)
      modifies this
      ensures Staged(pages, catalog, r) == HeapOps.InsertRowOnNewPage(old(pages), old(catalog), relationId, bytes)
      ensures forest == old(forest)
    {
      hide Storable;
      if catalog.nextPageId == U64_MAX {
        return Err(User);
      }
      var pageId := catalog.nextPageId;
      catalog := catalog.(nextPageId := pageId + 1);
      if !HasRoom(EMPTY, bytes) {
        return Err(User);
      }
      match AppendHeapPage(catalog, relationId, pageId)
      case Err(error) =>
        r := Err(error);
      case Ok(appended) =>
        pages := pages[pageId := HeapPage(pageId, Inserted(EMPTY, bytes))];
        catalog := appended;
        var saved := SaveCatalog();
        r := if saved.Ok? then Ok(RowId(pageId, 0)) else Err(saved.error);
    }

    method FullScan(relationId: RelationId) returns (r: Result<seq<HeapRow>>)
      requires Sound()
      ensures r == match TableOf(catalog, relationId)
                   case Err(error) => Err(error)
                   case Ok(_) => Ok(Rows(pages, catalog, relationId))
    {
      DbReady(pages, catalog, forest, relationId);
      var reader := new StagedPages(pages, catalog);
      assert reader.View() == pages;
      r := HeapReads.FullScan(reader, catalog, relationId);
    }
  }
}
