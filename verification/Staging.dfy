/** A transaction's staged operations, once committed, come to what running them directly would have. */
module Staging {
  import opened Core
  import opened CatalogModel
  import opened PageModel
  import opened BTreeHeap
  import opened DbModel
  import opened HeapOps
  import opened HeapReads
  import CommitLog
  import opened Transactions
  import opened CatalogStores

  datatype HeapOp =
    | CreateTableOp(name: Core.Text, columns: seq<ColumnDef>)
    | InsertRowOp(relationId: RelationId, bytes: Bytes)
    | FullScanOp(relationId: RelationId)

  datatype Outcome = Created(id: RelationId) | Stored(rowId: RowId) | Scanned(rows: seq<HeapRow>)

  /** Pages, catalog and result of one operation on a database in order. */
  ghost function Run(m: PageMap, c: Catalog, forest: Forest, op: HeapOp): Staged<Outcome>
    requires InOrder(m, c, forest)
  {
    match op
    case CreateTableOp(name, columns) =>
      var s := CreateTable(m, c, name, columns);
      Staged(s.pages, s.catalog, if s.result.Ok? then Ok(Created(s.result.value)) else Err(s.result.error))
    case InsertRowOp(id, bytes) =>
      DbReady(m, c, forest, id);
      var s := InsertRow(m, c, id, bytes);
      Staged(s.pages, s.catalog, if s.result.Ok? then Ok(Stored(s.result.value)) else Err(s.result.error))
    case FullScanOp(id) =>
      Staged(m, c, if TableOf(c, id).Ok? then Ok(Scanned(Rows(m, c, id))) else Err(TableOf(c, id).error))
  }

  lemma RunKeeps(m: PageMap, c: Catalog, forest: Forest, op: HeapOp)
    requires InOrder(m, c, forest) && Run(m, c, forest, op).result.Ok?
    ensures var s := Run(m, c, forest, op); InOrder(s.pages, s.catalog, forest)
  {
    hide DbInv, Storable, Rows, Scan, FindId, FirstRoom;
    match op
    case CreateTableOp(name, columns) => CreateTableKeeps(m, c, forest, name, columns);
    case InsertRowOp(id, bytes) =>
      DbReady(m, c, forest, id);
      InsertRowKeeps(m, c, forest, id, bytes);
    case FullScanOp(_) =>
  }

  /** A run of operations up to its end, or to the first that fails. */
  ghost function RunAll(m: PageMap, c: Catalog, forest: Forest, ops: seq<HeapOp>): Staged<seq<Outcome>>
    requires InOrder(m, c, forest)
    decreases |ops|
  {
    if ops == [] then Staged(m, c, Ok([]))
    else
      var s := Run(m, c, forest, ops[0]);
      if s.result.Err? then Staged(s.pages, s.catalog, Err(s.result.error))
      else
        RunKeeps(m, c, forest, ops[0]);
        var rest := RunAll(s.pages, s.catalog, forest, ops[1..]);
        Staged(rest.pages, rest.catalog, if rest.result.Ok? then Ok([s.result.value] + rest.result.value) else rest.result)
  }

  method RunDirect(store: CatalogStore, ops: seq<HeapOp>) returns (r: Result<seq<Outcome>>)
    requires store.Sound()
    modifies store
    ensures Staged(store.pages, store.catalog, r) == old(RunAll(store.pages, store.catalog, store.forest, ops))
    decreases |ops|
  {
    hide InOrder, Run;
    if ops == [] {
      return Ok([]);
    }
    var first := RunOneDirect(store, ops[0]);
    match first
    case Err(error) =>
      return Err(error);
    case Ok(outcome) =>
      var rest := RunDirect(store, ops[1..]);
      r := if rest.Ok? then Ok([outcome] + rest.value) else rest;
  }

  method RunOneDirect(store: CatalogStore, op: HeapOp) returns (r: Result<Outcome>)
    requires store.Sound()
    modifies store
    ensures Staged(store.pages, store.catalog, r) == old(Run(store.pages, store.catalog, store.forest, op))
    ensures store.forest == old(store.forest) && (r.Ok? ==> store.Sound())
  {
    hide InOrder;
    match op
    case CreateTableOp(name, columns) =>
      var id :- store.CreateTable(name, columns);
      r := Ok(Created(id));
    case InsertRowOp(id, bytes) =>
      var rowId :- store.InsertRow(id, bytes);
      r := Ok(Stored(rowId));
    case FullScanOp(id) =>
      var rows :- store.FullScan(id);
      r := Ok(Scanned(rows));
  }

  method RunStaged(tx: Transaction, ops: seq<HeapOp>) returns (r: Result<seq<Outcome>>)
    requires tx.Sound()
    modifies tx.pages
    ensures tx.Open() && (r.Ok? ==> tx.Sound())
    ensures Staged(tx.pages.View(), tx.pages.catalog, r) ==
            old(RunAll(tx.pages.View(), tx.pages.catalog, tx.forest, ops))
    decreases |ops|
  {
    hide InOrder, Run, Transaction.Open;
    if ops == [] {
      return Ok([]);
    }
    var first := RunOneStaged(tx, ops[0]);
    match first
    case Err(error) =>
      return Err(error);
    case Ok(outcome) =>
      var rest := RunStaged(tx, ops[1..]);
      r := if rest.Ok? then Ok([outcome] + rest.value) else rest;
  }

  method RunOneStaged(tx: Transaction, op: HeapOp) returns (r: Result<Outcome>)
    requires tx.Sound()
    modifies tx.pages
    ensures tx.Open() && (r.Ok? ==> tx.Sound())
    ensures Staged(tx.pages.View(), tx.pages.catalog, r) ==
            old(Run(tx.pages.View(), tx.pages.catalog, tx.forest, op))
  {
    hide InOrder, Transaction.Open;
    match op
    case CreateTableOp(name, columns) =>
      var id :- tx.CreateTable(name, columns);
      r := Ok(Created(id));
    case InsertRowOp(id, bytes) =>
      var rowId :- tx.InsertRow(id, bytes);
      r := Ok(Stored(rowId));
    case FullScanOp(id) =>
      var rows :- tx.FullScan(id);
      r := Ok(Scanned(rows));
  }

  /** Run the same operations in one committed transaction and directly, on equal databases: when they succeed they
  succeed alike, with the same relation ids, row ids and scans, and leave the same pages and catalog. */
  method StagedEqualsDirect(store: TransactionalStore, direct: CatalogStore, ops: seq<HeapOp>)
    returns (staged: Result<seq<Outcome>>, ran: Result<seq<Outcome>>)
    requires store.Valid() && store.Consistent() && !store.activeWriter && store.nextTxId < U64_MAX
    requires direct.Sound() && direct.pages == store.disk.data && direct.catalog == store.catalog
    requires direct.forest == store.forest
    modifies store, store.disk, direct
    ensures staged == ran
    ensures staged.Ok? ==> store.disk.data == direct.pages && store.catalog == direct.catalog
    ensures staged.Err? ==> store.disk.data == old(store.disk.data) && store.catalog == old(store.catalog)
  {
    hide InOrder, RunAll, TransactionalStore.Valid, CommitLog.ImageRecords, CommitLog.Ascending;
    var begun := store.Begin();
    match begun
    case Err(_) =>
      assert false;
      return Err(User), Err(User);
    case Ok(tx) =>
      assert tx.pages.View() == store.disk.data;
      staged := RunStaged(tx, ops);
      ran := RunDirect(direct, ops);
      if staged.Ok? {
        tx.Commit();
      } else {
        tx.Drop();
      }
  }
}
