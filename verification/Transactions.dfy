/** The single-writer transaction layer: pages staged in memory, logged, and only then written in place. */
module Transactions {
  import opened Core
  import opened CatalogModel
  import opened IndexModel
  import opened SlottedModel
  import opened PageModel
  import opened BTreeModel
  import opened BTreeHeap
  import opened BTreeTheorems
  import opened BTree
  import opened BTreeLookup
  import opened StagedStore
  import opened DbModel
  import opened HeapOps
  import opened HeapReads
  import opened IndexOps
  import opened WalModel
  import opened Redo
  import opened CrashModel
  import opened CommitLog
  import opened DiskFiles

  const FIRST_TX_ID: TxId := 1

  /** Page 0 holds the catalog, which fits it, and every relation is in order. */
  ghost predicate InOrder(m: PageMap, c: Catalog, forest: Forest) {
    DbInv(m, c, forest) && Storable(c) && CATALOG_PAGE_ID in m && m[CATALOG_PAGE_ID] == CatalogPage(c)
  }

  class TransactionalStore {
    const disk: Disk
    var catalog: Catalog
    var nextTxId: u64
    var activeWriter: bool

    /** The data file when the session began, and the page map after each commit since. */
    ghost const base: PageMap
    ghost var history: seq<PageMap>
    ghost var forest: Forest

    /** Open a session on a data file and a log that redo has nothing left to do with. */
    constructor (disk: Disk, catalog: Catalog, ghost forest: Forest)
      requires disk.Valid() && disk.trace == [disk.Now()] && disk.acked == 0
      requires disk.synced == |disk.wal| && disk.durable == disk.data && disk.inflight == {}
      requires QuietFrom(disk.wal, FIRST_TX_ID) && CommitCount(disk.wal) == 0
      ensures Valid() && !activeWriter && this.disk == disk && history == [disk.data]
      ensures this.catalog == catalog && this.forest == forest
    {
      this.disk, this.catalog, nextTxId, activeWriter := disk, catalog, FIRST_TX_ID, false;
      base, history, this.forest := disk.data, [disk.data], forest;
      OpeningIsSafe(disk.Files());
    }

    ghost predicate Valid()
      reads this, disk
    {
      && disk.Valid()
      && history != [] && CommitCount(disk.wal) == disk.acked == |history| - 1
      && disk.data == history[|history| - 1]
      && Safe(disk.trace, base, history)
      && QuietFrom(disk.wal, nextTxId)
    }

    /** The committed database is in order, and the catalog in memory is the one on page 0. */
    ghost predicate Consistent()
      reads this, disk
    {
      InOrder(disk.data, catalog, forest)
    }

    // Committed reads

    method FullScan(relationId: RelationId) returns (r: Result<seq<HeapRow>>)
      requires Consistent()
      ensures r == match TableOf(catalog, relationId)
                   case Err(error) => Err(error)
                   case Ok(_) => Ok(Rows(disk.data, catalog, relationId))
    {
      DbReady(disk.data, catalog, forest, relationId);
      var reader := new StagedPages(disk.data, catalog);
      assert reader.View() == disk.data;
      r := HeapReads.FullScan(reader, catalog, relationId);
    }

    method ReadRow(relationId: RelationId, rowId: RowId) returns (r: Result<Option<HeapRow>>)
      requires Consistent()
      ensures TableOf(catalog, relationId).Ok? ==> HeapReady(disk.data, TableOf(catalog, relationId).value)
      ensures r == match TableOf(catalog, relationId)
                   case Err(error) => Err(error)
                   case Ok(table) => RowAt(disk.data, table, rowId)
    {
      DbReady(disk.data, catalog, forest, relationId);
      var reader := new StagedPages(disk.data, catalog);
      assert reader.View() == disk.data;
      r := HeapReads.ReadRow(reader, catalog, relationId, rowId);
    }

    /** Row ids under a key of an index. */
    method LookupIndex(indexRelationId: RelationId, key: IndexKey) returns (r: Result<seq<RowId>>)
      requires Consistent()
      ensures HasIndex(catalog, indexRelationId) ==> indexRelationId in forest
      ensures r == if HasIndex(catalog, indexRelationId) then Ok(Matches(Entries(forest[indexRelationId]), key)) else Err(User)
    {
      hide FindId, Entries, Holds, Balanced, Ordered, Pages;
      match RelationById(catalog, indexRelationId)
      case None =>
        r := Err(User);
      case Some(relation) =>
        match relation.storage
        case Heap(_) =>
          r := Err(User);
        case BPlusTree(_, _, rootPageId) =>
          IndexPlanted(disk.data, catalog, forest, FindId(catalog.relations, indexRelationId));
          ghost var t := forest[indexRelationId];
          ghost var h :| WellFormed(t, h);
          var reader := new StagedPages(disk.data, catalog);
          assert reader.View() == disk.data;
          r := Lookup(reader, rootPageId, key, t, h);
    }

    // Writing

    method AllocateTxId() returns (r: Result<TxId>)
      modifies this`nextTxId
      ensures match r
        case Ok(txId) => txId == old(nextTxId) && nextTxId == txId + 1
        case Err(error) => error == User && old(nextTxId) == U64_MAX && nextTxId == old(nextTxId)
    {
      if nextTxId == U64_MAX {
        return Err(User);
      }
      r := Ok(nextTxId);
      nextTxId := nextTxId + 1;
    }

    /** The begin marker of an unused id changes nothing that redo sees. */
    lemma BeginRecord(txId: TxId)
      requires disk.Valid() && Safe(disk.trace, base, history) && QuietFrom(disk.wal, txId)
      ensures DiskInv(disk.Files().(wal := disk.wal + [BeginTx(txId)]), base, history, disk.acked)
      ensures CommitCount(disk.wal + [BeginTx(txId)]) == CommitCount(disk.wal)
      ensures Quiet(disk.wal + [BeginTx(txId)], txId) && QuietFrom(disk.wal + [BeginTx(txId)], txId)
    {
      NeutralStep(disk.Files(), BeginTx(txId), base, history, disk.acked);
      CommitCountAppend<Page>(disk.wal, BeginTx(txId));
      assert Quiet(disk.wal, txId);
      QuietAppend(disk.wal, BeginTx(txId), txId);
      QuietFromAppend(disk.wal, BeginTx(txId), txId);
    }

    /** Start a write transaction, unless one is open. */
    method Begin() returns (r: Result<Transaction>)
      requires Valid()
      modifies this`nextTxId, this`activeWriter, disk`wal, disk`trace
      ensures Valid()
      ensures r.Err? <==> old(activeWriter) || old(nextTxId) == U64_MAX
      ensures r.Err? ==> r.error == (if old(activeWriter) then Retryable else User)
      ensures r.Err? ==> activeWriter == old(activeWriter)
      ensures r.Ok? ==>
        var tx := r.value;
        && fresh(tx) && fresh(tx.pages) && tx.manager == this && tx.Open() && activeWriter
        && tx.forest == forest && tx.pages.dirty == map[] && tx.pages.catalog == catalog
        && (Consistent() ==> tx.Sound())
    {
      hide DiskInv, Safe, DbInv, Storable, CommitCount, Quiet;
      if activeWriter {
        return Err(Retryable);
      }
      var txId :- AllocateTxId();
      activeWriter := true;
      BeginRecord(txId);
      disk.Append(BeginTx(txId));
      SafeAppend(old(disk.trace), disk.Now(), base, history);
      var pages := new StagedPages(disk.data, catalog);
      var tx := new Transaction(this, txId, pages, forest);
      assert pages.View() == disk.data;
      r := Ok(tx);
    }
  }

  datatype TransactionState = Active | Committed | RolledBack

  class Transaction {
    const manager: TransactionalStore
    const txId: TxId
    const pages: StagedPages
    var state: TransactionState
    ghost var forest: Forest

    constructor (manager: TransactionalStore, txId: TxId, pages: StagedPages, ghost forest: Forest)
      ensures this.manager == manager && this.txId == txId && this.pages == pages
      ensures state == Active && this.forest == forest
    {
      this.manager, this.txId, this.pages, state, this.forest := manager, txId, pages, Active, forest;
    }

    /** Still open: nothing of it is in the data file, and the log holds only its begin marker. */
    ghost predicate Open()
      reads this, pages, manager, manager.disk
    {
      && state == Active
      && manager.Valid()
      && txId < manager.nextTxId && Quiet(manager.disk.wal, txId)
      && pages.base == manager.disk.data
      && pages.Valid()
    }

    /** Every operation so far returned Ok, so the staged pages and the working catalog are in order. */
    ghost predicate Sound()
      reads this, pages, manager, manager.disk
    {
      Open() && InOrder(pages.View(), pages.catalog, forest)
    }

    /** Stage the catalog page, if the catalog fits it. */
    method MarkCatalogDirty() returns (r: Result<()>)
      requires pages.Valid()
      modifies pages`dirty
      ensures pages.Valid()
      ensures r == if Storable(pages.catalog) then Ok(()) else Err(User)
      ensures pages.View() ==
              if r.Ok? then old(pages.View())[CATALOG_PAGE_ID := CatalogPage(pages.catalog)] else old(pages.View())
    {
      if !Storable(pages.catalog) {
        return Err(User);
      }
      pages.StorePage(CatalogPage(pages.catalog));
      r := Ok(());
    }

    method CreateTable(name: Core.Text, columns: seq<ColumnDef>) returns (r: Result<RelationId>)
      requires Sound()
      modifies pages
      ensures Open() && (r.Ok? ==> Sound())
      ensures if TableFits(old(pages.catalog), name, columns) then
          var r1 := RelationInfo(old(pages.catalog.nextRelationId), name, Table, Heap([old(pages.catalog.nextPageId)]), columns);
          && r == Ok(r1.id)
          && Added(old(pages.catalog), pages.catalog, r1) && NewlyNamed(old(pages.catalog), pages.catalog, r1)
        else r == Err(User)
      ensures Staged(pages.View(), pages.catalog, r) ==
              HeapOps.CreateTable(old(pages.View()), old(pages.catalog), name, columns)
    {
      hide DbInv, Storable, Quiet, TransactionalStore.Valid, TableFits, Added, NewlyNamed;
      CreateTableExact(pages.View(), pages.catalog, name, columns);
      CreateTableNamed(pages.View(), pages.catalog, name, columns);
      ghost var m, c := pages.View(), pages.catalog;
      var change := CreateTableMetadata(pages.catalog, name, columns);
      pages.catalog := change.catalog;
      match change.result
      case Err(error) =>
        r := Err(error);
      case Ok((relationId, firstPageId)) =>
        pages.StorePage(HeapPage(firstPageId, EMPTY));
        var marked := MarkCatalogDirty();
        if marked.Ok? {
          CreateTableKeeps(m, c, forest, name, columns);
        }
        r := if marked.Ok? then Ok(relationId) else Err(marked.error);
    }

    ghost function RowInserted(relationId: RelationId, bytes: Bytes): Staged<RowId>
      requires Sound()
      reads this, pages, manager, manager.disk
    {
      DbReady(pages.View(), pages.catalog, forest, relationId);
      HeapOps.InsertRow(pages.View(), pages.catalog, relationId, bytes)
    }

    method InsertRow(relationId: RelationId, bytes: Bytes) returns (r: Result<RowId>)
      requires Sound()
      modifies pages
      ensures Open() && (r.Ok? ==> Sound())
      ensures match RelationById(old(pages.catalog), relationId)
        case None => r == Err(User)
        case Some(table) =>
          if table.storage.Heap? && HeapTakes(old(pages.View()), old(pages.catalog), table.storage.pages, bytes)
          then r.Ok? && Placed(old(pages.View()), table.storage.pages, old(pages.catalog.nextPageId), bytes, r.value)
          else r == Err(User)
      ensures Staged(pages.View(), pages.catalog, r) == old(RowInserted(relationId, bytes))
    {
      DbReady(pages.View(), pages.catalog, forest, relationId);
      InsertRowExact(pages.View(), pages.catalog, forest, relationId, bytes);
      r := PlaceRow(relationId, bytes);
    }

    method PlaceRow(relationId: RelationId, bytes: Bytes) returns (r: Result<RowId>)
      requires Sound()
      modifies pages
      ensures Open() && (r.Ok? ==> Sound())
      ensures Staged(pages.View(), pages.catalog, r) == old(RowInserted(relationId, bytes))
    {
      hide Utf8, DbInv, Storable, Quiet, TransactionalStore.Valid, FirstRoom, FindId, Scan, Inserted, FirstDead;
      ghost var m, c := pages.View(), pages.catalog;
      DbReady(m, c, forest, relationId);
      match TableOf(pages.catalog, relationId)
      case Err(error) =>
        r := Err(error);
      case Ok(table) =>
        var pageIds := table.storage.pages;
        for i := 0 to |pageIds|
          invariant pages.View() == m && pages.catalog == c && pages.dirty == old(pages.dirty)
          invariant forall j :: 0 <= j < i ==> HeapPageAt(m, pageIds[j]) && !HasRoom(m[pageIds[j]].rows, bytes)
        {
          assert HeapPageAt(m, pageIds[i]);
          var loaded := pages.LoadPage(pageIds[i]);
          match loaded
          case Err(error) =>
            return Err(error);
          case Ok(page) =>
            if HasRoom(page.rows, bytes) {
              var slotId := FirstDead(page.rows.slots);
              FirstRoomAt(m, pageIds, bytes, i);
              SoundSlots(Inserted(page.rows, bytes));
              pages.StorePage(HeapPage(pageIds[i], Inserted(page.rows, bytes)));
              InsertRowKeeps(m, c, forest, relationId, bytes);
              return Ok(RowId(pageIds[i], slotId));
            }
        }
        FirstRoomAt(m, pageIds, bytes, |pageIds|);
        r := InsertRowOnNewPage(relationId, bytes);
        if r.Ok? {
          InsertRowKeeps(m, c, forest, relationId, bytes);
        }
    }

    method InsertRowOnNewPage(relationId: RelationId, bytes: Bytes) returns (r: Result<RowId>)
      requires pages.Valid()
      modifies pages
      ensures pages.Valid()
      ensures Staged(pages.View(), pages.catalog, r) ==
              HeapOps.InsertRowOnNewPage(old(pages.View()), old(pages.catalog), relationId, bytes)
    {
      var pageId :- pages.AllocatePage();
      if !HasRoom(EMPTY, bytes) {
        return Err(User);
      }
      match AppendHeapPage(pages.catalog, relationId, pageId)
      case Err(error) =>
        r := Err(error);
      case Ok(catalog) =>
        pages.catalog := catalog;
        pages.StorePage(HeapPage(pageId, Inserted(EMPTY, bytes)));
        var marked := MarkCatalogDirty();
        r := if marked.Ok? then Ok(RowId(pageId, 0)) else Err(marked.error);
    }

    method CreateIndex(name: Core.Text, tableId: RelationId, columnName: Core.Text)
      returns (r: Result<(RelationId, PageId)>)
      requires Sound()
      modifies pages, this`forest
      ensures Open() && (r.Ok? ==> Sound())
      ensures if IndexFits(old(pages.catalog), name, tableId, columnName) then
          && r == Ok((old(pages.catalog.nextRelationId), old(pages.catalog.nextPageId)))
          && Added(old(pages.catalog), pages.catalog,
                   RelationInfo(r.value.0, name, Index, BPlusTree(tableId, columnName, r.value.1),
                                [ColumnDef(columnName, INDEX_KEY_TYPE)]))
        else r == Err(User)
      ensures Staged(pages.View(), pages.catalog, r) ==
              IndexOps.CreateIndex(old(pages.View()), old(pages.catalog), name, tableId, columnName)
      ensures r.Ok? ==> forest == old(forest)[r.value.0 := EmptyTree(r.value.1)]
    {
      hide DbInv, Storable, Quiet, TransactionalStore.Valid, CreateIndexMetadata, IndexFits, Added;
      CreateIndexExact(pages.View(), pages.catalog, name, tableId, columnName);
      ghost var m, c := pages.View(), pages.catalog;
      var change := CreateIndexMetadata(pages.catalog, name, tableId, columnName);
      pages.catalog := change.catalog;
      match change.result
      case Err(error) =>
        r := Err(error);
      case Ok((relationId, rootPageId)) =>
        InitializeRoot(pages, rootPageId);
        var marked := MarkCatalogDirty();
        if marked.Ok? {
          CreateIndexKeeps(m, c, forest, name, tableId, columnName);
          forest := forest[relationId := EmptyTree(rootPageId)];
        }
        r := if marked.Ok? then Ok((relationId, rootPageId)) else Err(marked.error);
    }

    /** Insert one entry into an index relation. It fails only for an unknown index, or for want of room in a node or of
    a page id, and may then leave pages staged. */
    method InsertIndexEntry(indexRelationId: RelationId, key: IndexKey, rowId: RowId) returns (r: Result<()>)
      requires Sound()
      modifies pages, this`forest
      ensures Open() && (r.Ok? ==> Sound())
      ensures old(HasIndex(pages.catalog, indexRelationId)) ==> indexRelationId in old(forest)
      ensures r ==
        if !old(HasIndex(pages.catalog, indexRelationId)) then Err(User)
        else
          match InsertRoot(old(forest)[indexRelationId], IndexEntry(key, rowId), old(pages.catalog.nextPageId))
          case Err(error) => Err(error)
          case Ok(_) => Ok(())
      ensures r.Ok? ==>
        var t := old(forest)[indexRelationId];
        var grown := InsertRoot(t, IndexEntry(key, rowId), old(pages.catalog.nextPageId)).value;
        && forest == old(forest)[indexRelationId := grown.tree]
        && Contents(grown.tree) == Contents(t) + multiset{IndexEntry(key, rowId)}
        && pages.catalog == Rerooted(old(pages.catalog), FindId(old(pages.catalog).relations, indexRelationId), grown.tree.page, grown.free)
        && RowsKept(old(pages.View()), old(pages.catalog), pages.View(), pages.catalog)
    {
      hide Utf8, DbInv, Storable, Quiet, TransactionalStore.Valid, InsertRoot, FindId, Pages, RowsKept, Framed, Planted, Contents, Ids;
      ghost var m, c := pages.View(), pages.catalog;
      match RelationById(pages.catalog, indexRelationId)
      case None =>
        r := Err(User);
      case Some(relation) =>
        match relation.storage
        case Heap(_) =>
          r := Err(User);
        case BPlusTree(_, _, rootPageId) =>
          ghost var i := FindId(c.relations, indexRelationId);
          ghost var e := IndexEntry(key, rowId);
          IndexPlanted(m, c, forest, i);
          ghost var t := forest[indexRelationId];
          var newRootPageId :- InsertEntryAtRoot(pages, rootPageId, key, rowId, t);
          ghost var grown := InsertRoot(t, e, c.nextPageId).value;
          ghost var n := pages.View();
          RerootedIsSet(c, i, grown.tree.page, grown.free);
          if newRootPageId != rootPageId {
            match SetIndexRootPage(pages.catalog, indexRelationId, newRootPageId)
            case Err(error) =>
              return Err(error);
            case Ok(catalog) =>
              pages.catalog := catalog;
          }
          RerootedStorable(c, i, grown.tree.page, grown.free);
          r := MarkCatalogDirty();
          InsertRootFree(t, e, c.nextPageId);
          InsertEntryKeeps(m, n, c, forest, i, e, grown);
          forest := forest[indexRelationId := grown.tree];
    }

    method FullScan(relationId: RelationId) returns (r: Result<seq<HeapRow>>)
      requires Sound()
      ensures r == match TableOf(pages.catalog, relationId)
                   case Err(error) => Err(error)
                   case Ok(_) => Ok(Rows(pages.View(), pages.catalog, relationId))
    {
      DbReady(pages.View(), pages.catalog, forest, relationId);
      r := HeapReads.FullScan(pages, pages.catalog, relationId);
    }

    // Ending

    /** Log the image of every dirty page, in page order. */
    method LogImages(ids: seq<PageId>)
      requires Open() && forall p :: p in ids <==> p in pages.dirty
      modifies manager.disk`wal, manager.disk`trace
      ensures manager.disk.Valid() && Safe(manager.disk.trace, manager.base, manager.history)
      ensures manager.disk.wal == old(manager.disk.wal) + ImageRecords(txId, pages.dirty, ids)
    {
      hide DiskInv, Safe, ImagesOf, CommitCount, Quiet;
      var disk := manager.disk;
      ghost var start := disk.wal;
      assert start + ImageRecords(txId, pages.dirty, []) == start;
      for i := 0 to |ids|
        invariant disk.Valid() && Safe(disk.trace, manager.base, manager.history)
        invariant disk.wal == start + ImageRecords(txId, pages.dirty, ids[..i])
      {
        ghost var files, trace, r := disk.Files(), disk.trace, PageImage(txId, ids[i], pages.dirty[ids[i]]);
        LoggedImages(start, txId, pages.dirty, ids[..i]);
        assert DiskInv(trace[|trace| - 1].files, manager.base, manager.history, disk.acked) by {
          SafeNow(trace, manager.base, manager.history);
        }
        NeutralStep(files, r, manager.base, manager.history, disk.acked);
        disk.Append(PageImage(txId, ids[i], pages.dirty[ids[i]]));
        SafeAppend(trace, disk.Now(), manager.base, manager.history);
        RecordsAppend(txId, pages.dirty, ids, i);
      }
      assert ids[..|ids|] == ids;
    }

    /** Copy the dirty pages, whose images are committed in the synced log, to the data file. */
    method WriteBack(ids: seq<PageId>)
      requires forall p :: p in ids <==> p in pages.dirty
      requires pages.Valid() && manager.disk.Valid()
      requires Safe(manager.disk.trace, manager.base, manager.history)
      requires forall p :: p in pages.dirty ==>
        Write(p, pages.dirty[p]) in Effect(manager.disk.wal[..manager.disk.synced])
      requires manager.disk.synced <= |manager.disk.wal|
      modifies manager.disk`data, manager.disk`inflight, manager.disk`trace
      ensures manager.disk.Valid() && Safe(manager.disk.trace, manager.base, manager.history)
      ensures manager.disk.data == old(manager.disk.data) + pages.dirty
    {
      hide Utf8, DiskInv, Safe, Effect, CommitCount, Quiet, Kept;
      var disk := manager.disk;
      ghost var before := disk.data;
      KeptAll(before, pages.dirty, ids);
      for i := 0 to |ids|
        invariant disk.Valid() && Safe(disk.trace, manager.base, manager.history)
        invariant disk.data == before + Kept(pages.dirty, ids[..i])
      {
        ghost var files, trace, page := disk.Files(), disk.trace, pages.dirty[ids[i]];
        SafeNow(trace, manager.base, manager.history);
        WritePageStep(files, page, manager.base, manager.history, disk.acked);
        disk.WritePage(pages.dirty[ids[i]]);
        SafeAppend(trace, disk.Now(), manager.base, manager.history);
        KeptStep(before, pages.dirty, ids, i);
      }
      assert ids[..|ids|] == ids;
    }

    /** Log every dirty page and the commit marker, and make the log durable. */
    method LogCommit(ids: seq<PageId>)
      requires Open() && forall p :: p in ids <==> p in pages.dirty
      modifies manager`history, manager.disk`wal, manager.disk`synced, manager.disk`trace
      ensures manager.history == old(manager.history) + [pages.View()]
      ensures manager.disk.Valid() && Safe(manager.disk.trace, manager.base, manager.history)
      ensures manager.disk.wal == old(manager.disk.wal) + ImageRecords(txId, pages.dirty, ids) + [CommitTx(txId)]
      ensures manager.disk.synced == |manager.disk.wal|
      ensures CommitCount(manager.disk.wal) == |manager.history| - 1
      ensures QuietFrom(manager.disk.wal, manager.nextTxId)
      ensures forall p :: p in pages.dirty ==>
        Write(p, pages.dirty[p]) in Effect(manager.disk.wal[..manager.disk.synced])
    {
      hide DiskInv, Safe, Effect, CommitCount, Quiet, QuietFrom, ImageRecords;
      var disk := manager.disk;
      ghost var start, history, dirty := disk.wal, manager.history, pages.dirty;
      assert Quiet(start, txId) && disk.data == history[|history| - 1];
      LogImages(ids);

      ghost var files, trace := disk.Files(), disk.trace;
      SafeNow(trace, manager.base, history);
      MarkerAppended(files, start, txId, dirty, ids, manager.base, history, disk.acked, manager.nextTxId);
      manager.history := history + [pages.View()];
      SafeGrows(trace, manager.base, history, manager.history);
      disk.Append(CommitTx(txId));
      SafeAppend(trace, disk.Now(), manager.base, manager.history);

      files, trace := disk.Files(), disk.trace;
      SyncWalStep(files, manager.base, manager.history, disk.acked);
      disk.SyncWal();
      SafeAppend(trace, disk.Now(), manager.base, manager.history);
      assert disk.wal[..disk.synced] == disk.wal;
    }

    /** Commit: page images, marker, WAL sync, data writes, data sync. */
    method Commit()
      requires Open()
      modifies this`state, manager, manager.disk
      ensures state == Committed && manager.Valid() && !manager.activeWriter
      ensures manager.history == old(manager.history) + [old(pages.View())]
      ensures manager.disk.data == old(pages.View())
      ensures manager.nextTxId == old(manager.nextTxId)
      ensures manager.catalog == pages.catalog && manager.forest == forest
      ensures exists ids: seq<PageId> ::
        && Ascending(ids) && (forall p :: p in ids <==> p in pages.dirty)
        && manager.disk.wal == old(manager.disk.wal) + ImageRecords(txId, pages.dirty, ids) + [CommitTx(txId)]
      ensures manager.disk.synced == |manager.disk.wal| && manager.disk.durable == manager.disk.data
      ensures old(Sound()) ==> manager.Consistent()
    {
      hide Utf8, DiskInv, Safe, Effect, CommitCount, Quiet, QuietFrom, InOrder, ImageRecords, Ascending;
      var disk := manager.disk;
      ghost var commits := |manager.history|;
      assert disk.data == manager.history[commits - 1];
      var ids := SortedIds(pages.dirty.Keys);
      LogCommit(ids);
      WriteBack(ids);

      ghost var trace := disk.trace;
      SafeNow(trace, manager.base, manager.history);
      SyncDataStep(disk.Files(), manager.base, manager.history, disk.acked);
      disk.SyncData();
      SafeAppend(trace, disk.Now(), manager.base, manager.history);

      manager.catalog, manager.forest := pages.catalog, forest;
      state := Committed;
      manager.activeWriter := false;

      trace := disk.trace;
      AcknowledgeStep(disk.Files(), manager.base, manager.history, disk.acked, commits);
      disk.Acknowledge(commits);
      SafeAppend(trace, disk.Now(), manager.base, manager.history);
    }

    /** Discard everything staged. */
    method Rollback()
      requires Open()
      modifies this`state, pages`dirty, manager`activeWriter, manager.disk`wal, manager.disk`synced, manager.disk`trace
      ensures state == RolledBack && pages.dirty == map[]
      ensures manager.Valid() && !manager.activeWriter
      ensures manager.disk.wal == old(manager.disk.wal) + [AbortTx(txId)] && manager.disk.synced == |manager.disk.wal|
      ensures old(manager.Consistent()) ==> manager.Consistent()
    {
      hide DiskInv, Safe, Effect, CommitCount, InOrder;
      var disk := manager.disk;
      ghost var files, trace := disk.Files(), disk.trace;
      SafeNow(trace, manager.base, manager.history);
      NeutralStep(files, AbortTx(txId), manager.base, manager.history, disk.acked);
      CommitCountAppend<Page>(disk.wal, AbortTx(txId));
      QuietFromAppend(disk.wal, AbortTx(txId), manager.nextTxId);
      disk.Append(AbortTx(txId));
      SafeAppend(trace, disk.Now(), manager.base, manager.history);

      trace := disk.trace;
      SyncWalStep(disk.Files(), manager.base, manager.history, disk.acked);
      disk.SyncWal();
      SafeAppend(trace, disk.Now(), manager.base, manager.history);

      pages.dirty := map[];
      state := RolledBack;
      manager.activeWriter := false;
    }

    /** Dropped while open: nothing is logged, and the writer slot is free again. */
    method Drop()
      requires Open()
      modifies manager`activeWriter
      ensures manager.Valid() && !manager.activeWriter
      ensures old(manager.Consistent()) ==> manager.Consistent()
    {
      if state == Active {
        manager.activeWriter := false;
      }
    }
  }
}
