/** Whole runs of statements, crashes among them. */
module SqlSessions {
  import opened Core
  import opened CatalogModel
  import opened PageModel
  import opened BTreeHeap
  import opened DbModel
  import opened HeapOps
  import opened IndexOps
  import opened WalModel
  import opened CrashModel
  import opened DiskFiles
  import opened CommitLog
  import opened Redo
  import opened Recovery
  import opened Transactions
  import opened SessionTheorems
  import opened RowCodec
  import opened SqlModel
  import opened SqlInvariant
  import opened SqlMeaning
  import opened SqlRoom
  import opened Sql
  import opened SqlSelect

  /** A page map whose tables are typed and whose indexes agree with them. */
  ghost predicate SqlDatabase(m: PageMap) {
    exists c, forest :: InOrder(m, c, forest) && SqlInv(m, c, forest)
  }

  /** The store serves, and so would every page map it ever committed. */
  ghost predicate AlwaysServing(store: TransactionalStore)
    reads store, store.disk
  {
    Serving(store) && forall k :: 0 <= k < |store.history| ==> SqlDatabase(store.history[k])
  }

  lemma ServesHistory(store: TransactionalStore, before: seq<PageMap>)
    requires Serving(store) && (forall k :: 0 <= k < |before| ==> SqlDatabase(before[k]))
    requires store.history == before || store.history == before + [store.disk.data]
    ensures AlwaysServing(store)
  {
    hide Serving, InOrder, SqlInv;
    ServingMeans(store);
    assert SqlDatabase(store.disk.data);
  }

  /** Exactly when a statement succeeds. */
  ghost predicate Succeeds(store: TransactionalStore, floats: Floats, statement: Statement)
    reads store, store.disk
  {
    match statement
    case CreateTable(name, columns) => Ready(store) && TableFits(store.catalog, name, columns)
    case Insert(table, values) =>
      Ready(store) && InsertGoes(store.disk.data, store.catalog, store.forest, floats, table, values)
    case CreateIndex(name, table, column) => Ready(store) && IndexGoes(store.disk.data, store.catalog, name, table, column)
    case Select(projection, table, selection) => Known(Held(store), projection, table, selection)
  }

  /** The statement gets as far as asking for the writer, and another transaction has it. */
  ghost predicate Blocked(store: TransactionalStore, floats: Floats, statement: Statement)
    reads store, store.disk
  {
    store.activeWriter &&
    match statement
    case CreateTable(_, _) => true
    case Insert(table, values) => Acceptable(store.catalog, floats, table, values)
    case CreateIndex(_, table, column) => exists p :: IndexableColumn(store.catalog, table, column, p)
    case Select(_, _, _) => false
  }

  /** One statement does what it means, or fails and changes nothing; and it fails only when it cannot succeed. */
  method Execute(store: TransactionalStore, floats: Floats, statement: Statement) returns (r: Result<ExecResult>)
    requires AlwaysServing(store)
    modifies store, store.disk
    ensures AlwaysServing(store)
    ensures Does(floats, statement, old(Held(store)), Held(store), r)
    ensures r.Ok? <==> old(Succeeds(store, floats, statement))
    ensures r.Err? ==> r.error == if old(Blocked(store, floats, statement)) then Retryable else User
    ensures r.Err? || statement.Select? ==> Unchanged(store)
    ensures r.Ok? && !statement.Select? ==> OneCommit(store)
  {
    hide Serving, SqlDatabase, Answered, IndexTarget, HeapOps.CreateTable, RowsKept, OtherRowsKept, SchemaKept, Rows, DbOf,
      TableFits, InsertGoes, IndexGoes, Known, Acceptable, IndexableColumn, TableMade, IndexMade, RowAdded, Answers, Resolves,
      Added, Utf8;
    ghost var before := store.history;
    match statement {
      case CreateTable(name, columns) => r := ExecuteCreateTable(store, name, columns);
      case Insert(table, values) => r := ExecuteInsert(store, floats, table, values);
      case CreateIndex(name, table, column) => r := ExecuteCreateIndex(store, name, table, column);
      case Select(projection, table, selection) => r := ExecuteSelect(store, floats, projection, table, selection);
    }
    ServesHistory(store, before);
  }

  // Whole runs

  /** Each statement takes one state to the next. */
  ghost predicate Follows(floats: Floats, statements: seq<Statement>, results: seq<Result<ExecResult>>, states: seq<Db>) {
    && |results| == |statements| && |states| == |statements| + 1
    && forall i :: 0 <= i < |statements| ==> Does(floats, statements[i], states[i], states[i + 1], results[i])
  }

  /** `history`, from place `first` on, holds the states at the commits of the run. */
  ghost predicate Records(
      history: seq<PageMap>, first: nat, statements: seq<Statement>, results: seq<Result<ExecResult>>, states: seq<Db>)
  {
    && |results| == |statements| && |states| == |statements| + 1
    && |history| == first + 1 + Writes(statements, results)
    && forall i :: 0 <= i <= |statements| ==> RecordedAt(history, first, statements, results, states, i)
  }

  ghost predicate RecordedAt(
      history: seq<PageMap>, first: nat, statements: seq<Statement>, results: seq<Result<ExecResult>>, states: seq<Db>, i: nat)
    requires |results| == |statements| && |states| == |statements| + 1 && i <= |statements|
  {
    var at := first + Writes(statements[..i], results[..i]);
    at < |history| && DbOf(history[at]) == states[i]
  }

  /** Any run of statements, failing ones included: each does what it means to the state the one before it left, the
  indexes agree throughout, and the states at the commits are the page maps of the history. */
  method Run(store: TransactionalStore, floats: Floats, statements: seq<Statement>)
    returns (results: seq<Result<ExecResult>>, ghost states: seq<Db>)
    requires AlwaysServing(store)
    modifies store, store.disk
    ensures AlwaysServing(store)
    ensures Follows(floats, statements, results, states)
    ensures states[0] == old(Held(store)) && states[|statements|] == Held(store)
    ensures old(store.history) <= store.history
    ensures Records(store.history, old(|store.history|) - 1, statements, results, states)
  {
    hide AlwaysServing, Does, DbOf, Records, Succeeds, Blocked;
    results, states := [], [Held(store)];
    ghost var first := |store.history| - 1;
    HistoryNow(store);
    RecordsNothing(store.history, first, Held(store));
    for i := 0 to |statements|
      invariant AlwaysServing(store) && |results| == i && |states| == i + 1
      invariant Follows(floats, statements[..i], results, states)
      invariant states[0] == old(Held(store)) && states[i] == Held(store)
      invariant old(store.history) <= store.history
      invariant Records(store.history, first, statements[..i], results, states)
    {
      ghost var history := store.history;
      var r := Execute(store, floats, statements[i]);
      assert statements[..i + 1] == statements[..i] + [statements[i]];
      HistoryNow(store);
      RecordsMore(history, store.history, first, statements[..i], results, states, statements[i], r, Held(store));
      results, states := results + [r], states + [Held(store)];
    }
    assert statements[..|statements|] == statements;
  }

  lemma HistoryNow(store: TransactionalStore)
    requires AlwaysServing(store)
    ensures store.history != [] && DbOf(store.history[|store.history| - 1]) == Held(store)
  {
    hide DbOf, SqlInv, InOrder, Safe;
  }

  lemma RecordsNothing(history: seq<PageMap>, first: nat, db: Db)
    requires |history| == first + 1 && DbOf(history[first]) == db
    ensures Records(history, first, [], [], [db])
  {
  }

  lemma RecordsMore(
      history: seq<PageMap>, history': seq<PageMap>, first: nat, statements: seq<Statement>, results: seq<Result<ExecResult>>,
      states: seq<Db>, statement: Statement, r: Result<ExecResult>, db: Db)
    requires Records(history, first, statements, results, states)
    requires if r.Ok? && !statement.Select? then |history'| == |history| + 1 && history'[..|history|] == history else history' == history
    requires DbOf(history'[|history'| - 1]) == db
    ensures Records(history', first, statements + [statement], results + [r], states + [db])
  {
    hide DbOf;
    var n := |statements|;
    WritesAppend(statements, results, statement, r);
    forall i | 0 <= i <= n + 1
      ensures RecordedAt(history', first, statements + [statement], results + [r], states + [db], i)
    {
      if i <= n {
        assert RecordedAt(history, first, statements, results, states, i);
        assert (statements + [statement])[..i] == statements[..i] && (results + [r])[..i] == results[..i];
      } else {
        assert (statements + [statement])[..i] == statements + [statement] && (results + [r])[..i] == results + [r];
      }
    }
  }

  /** The values of the INSERTs into a table that succeeded, in order. */
  function InsertedInto(statements: seq<Statement>, results: seq<Result<ExecResult>>, table: Core.Text): seq<seq<Value>>
    requires |statements| == |results|
  {
    if statements == [] then []
    else
      (if statements[0].Insert? && statements[0].table == table && results[0].Ok? then [statements[0].values] else [])
      + InsertedInto(statements[1..], results[1..], table)
  }

  /** Follow a table through any run: it keeps its columns, and its rows at the end are those at the start and one for
  each INSERT into it that succeeded, as its columns store them. */
  lemma {:induction false} TableThroughRun(
      floats: Floats, statements: seq<Statement>, results: seq<Result<ExecResult>>, states: seq<Db>, table: Core.Text)
    returns (stored: seq<seq<Value>>)
    requires Follows(floats, statements, results, states) && table in states[0].tables
    ensures var n, inserted := |statements|, InsertedInto(statements, results, table);
      && table in states[n].tables && states[n].tables[table].columns == states[0].tables[table].columns
      && states[n].tables[table].rows == states[0].tables[table].rows + multiset(stored)
      && |stored| == |inserted|
      && forall k :: 0 <= k < |stored| ==> RowStoresAs(floats, states[0].tables[table].columns, inserted[k], stored[k])
  {
    hide Utf8, RowStoresAs, Answers, Resolves, HasColumn;
    if statements == [] {
      stored := [];
    } else {
      var rest, rests, after := statements[1..], results[1..], states[1..];
      forall i | 0 <= i < |rest| ensures Does(floats, rest[i], after[i], after[i + 1], rests[i]) {
        assert Does(floats, statements[i + 1], states[i + 1], states[i + 2], results[i + 1]);
      }
      var first := StepOnTable(floats, statements[0], states[0], states[1], results[0], table);
      var others := TableThroughRun(floats, rest, rests, after, table);
      stored := first + others;
    }
  }

  /** What one statement adds to a table. */
  lemma StepOnTable(floats: Floats, statement: Statement, db: Db, db': Db, r: Result<ExecResult>, table: Core.Text)
    returns (stored: seq<seq<Value>>)
    requires Does(floats, statement, db, db', r) && table in db.tables
    ensures table in db'.tables && db'.tables[table].columns == db.tables[table].columns
    ensures db'.tables[table].rows == db.tables[table].rows + multiset(stored)
    ensures if statement.Insert? && statement.table == table && r.Ok?
            then |stored| == 1 && RowStoresAs(floats, db.tables[table].columns, statement.values, stored[0])
            else stored == []
  {
    hide Utf8, RowStoresAs, Answers, Resolves, HasColumn;
    stored := [];
    if statement.Insert? && r.Ok? {
      var row :| RowStoresAs(floats, db.tables[statement.table].columns, statement.values, row)
                 && RowAdded(db, db', statement.table, row);
      if statement.table == table {
        stored := [row];
        assert multiset([row]) == multiset{row};
      }
    }
  }

  /** Statements that succeeded and were not SELECTs. */
  function Writes(statements: seq<Statement>, results: seq<Result<ExecResult>>): nat
    requires |statements| == |results|
  {
    if statements == [] then 0
    else (if results[0].Ok? && !statements[0].Select? then 1 else 0) + Writes(statements[1..], results[1..])
  }

  lemma {:induction false} WritesAppend(
      statements: seq<Statement>, results: seq<Result<ExecResult>>, statement: Statement, r: Result<ExecResult>)
    requires |statements| == |results|
    ensures Writes(statements + [statement], results + [r]) ==
            Writes(statements, results) + if r.Ok? && !statement.Select? then 1 else 0
  {
    if statements == [] {
      assert Writes([statement][1..], [r][1..]) == 0;
    } else {
      WritesAppend(statements[1..], results[1..], statement, r);
      assert (statements + [statement])[1..] == statements[1..] + [statement];
      assert (results + [r])[1..] == results[1..] + [r];
    }
  }

  /** Open a session on an empty data file and an empty log. */
  method OpenFresh() returns (store: TransactionalStore)
    ensures fresh(store) && fresh(store.disk) && AlwaysServing(store) && !store.activeWriter
    ensures |store.history| == 1
  {
    hide Utf8, AlwaysServing, InOrder, SqlInv;
    var bootstrapped := OpenCatalog(map[]);
    var (pages, catalog) := bootstrapped.value;
    FreshDatabase();
    FreshAgrees();
    assert Whole(pages) == map[CATALOG_PAGE_ID := CatalogPage(EMPTY_CATALOG)];
    store := OpenOn(Whole(pages), catalog, map[]);
  }

  lemma FreshAgrees()
    ensures SqlInv(map[CATALOG_PAGE_ID := CatalogPage(EMPTY_CATALOG)], EMPTY_CATALOG, map[])
  {
  }

  method OpenOn(pages: PageMap, catalog: Catalog, ghost forest: Forest) returns (store: TransactionalStore)
    requires InOrder(pages, catalog, forest) && SqlInv(pages, catalog, forest)
    ensures fresh(store) && fresh(store.disk) && AlwaysServing(store) && !store.activeWriter
    ensures store.disk.data == pages && store.catalog == catalog && store.history == [pages]
  {
    hide InOrder, SqlInv;
    var disk := new Disk([], pages);
    assert QuietFrom<Page>([], FIRST_TX_ID) && CommitCount<Page>([]) == 0;
    store := new TransactionalStore(disk, catalog, forest);
    ServesHistory(store, store.history);
  }

  /** What a crash in a session leaves, once recovered. */
  lemma CrashKeepsAgreement(store: TransactionalStore, k: nat, wal: Log, crashed: Cells, interrupted: Cells)
    requires AlwaysServing(store) && k < |store.disk.trace|
    requires Survives(store.disk.trace[k].files, wal, crashed) && SameOffLog(wal, crashed, interrupted)
    ensures store.disk.trace[k].acked <= CommitCount(wal) < |store.history|
    ensures Recovered(wal, interrupted) == Ok(Lift(store.history[CommitCount(wal)]))
    ensures SqlDatabase(store.history[CommitCount(wal)])
  {
    hide SqlDatabase, Survives, Recovered;
    CrashAnywhere(store, k, wal, crashed, interrupted);
  }

  lemma {:induction false} WritesReach(statements: seq<Statement>, results: seq<Result<ExecResult>>, commits: nat) returns (i: nat)
    requires |statements| == |results| && commits <= Writes(statements, results)
    ensures i <= |statements| && Writes(statements[..i], results[..i]) == commits
  {
    if commits == 0 {
      i := 0;
    } else {
      var first := if results[0].Ok? && !statements[0].Select? then 1 else 0;
      i := WritesReach(statements[1..], results[1..], commits - first);
      assert statements[..i + 1][1..] == statements[1..][..i] && results[..i + 1][1..] == results[1..][..i];
      i := i + 1;
    }
  }

  /** Crash a session anywhere and recover: the database is the state some prefix of its statements left, and every
  statement whose commit was acknowledged is in that prefix. */
  lemma CrashLeavesPrefix(
      store: TransactionalStore, statements: seq<Statement>, results: seq<Result<ExecResult>>, states: seq<Db>,
      k: nat, wal: Log, crashed: Cells, interrupted: Cells)
    returns (i: nat)
    requires AlwaysServing(store) && k < |store.disk.trace|
    requires Records(store.history, 0, statements, results, states)
    requires Survives(store.disk.trace[k].files, wal, crashed) && SameOffLog(wal, crashed, interrupted)
    ensures i <= |statements| && store.disk.trace[k].acked <= Writes(statements[..i], results[..i])
    ensures exists m :: Recovered(wal, interrupted) == Ok(Lift(m)) && SqlDatabase(m) && DbOf(m) == states[i]
  {
    hide SqlDatabase, Survives, Recovered, AlwaysServing, DbOf, SameOffLog;
    CrashKeepsAgreement(store, k, wal, crashed, interrupted);
    i := WritesReach(statements, results, CommitCount(wal));
    assert RecordedAt(store.history, 0, statements, results, states, i);
  }

  function Whole(cells: Cells): PageMap {
    map p | p in cells && cells[p].Intact? :: cells[p].page
  }

  /** Recover after a crash at any moment of an earlier session and open a new one, with an empty log: it serves the
  database of the commits that survived, every acknowledged one among them. */
  method ReopenAfterCrash(
      wal: Log, cells: Cells, ghost earlier: TransactionalStore, ghost k: nat, ghost crashed: Cells)
    returns (store: Result<TransactionalStore>)
    requires AlwaysServing(earlier) && k < |earlier.disk.trace|
    requires Survives(earlier.disk.trace[k].files, wal, crashed) && SameOffLog(wal, crashed, cells)
    ensures earlier.disk.trace[k].acked <= CommitCount(wal) < |earlier.history|
    ensures store.Ok? && fresh(store.value) && AlwaysServing(store.value)
    ensures store.value.disk.data == earlier.history[CommitCount(wal)]
  {
    hide Survives, SameOffLog, Recovered, AlwaysServing, SqlInv;
    CrashKeepsAgreement(earlier, k, wal, crashed, cells);
    ghost var m := earlier.history[CommitCount(wal)];
    ghost var c, forest :| InOrder(m, c, forest) && SqlInv(m, c, forest);
    var recovered := RecoverPageFile(wal, cells);
    match recovered
    case Err(error) =>
      store := Err(error);
    case Ok((pages, _)) =>
      assert Whole(pages) == m && pages != map[];
      var found := OpenCatalog(pages);
      match found
      case Err(error) =>
        store := Err(error);
      case Ok((after, catalog)) =>
        var reopened := OpenOn(Whole(after), catalog, forest);
        store := Ok(reopened);
  }
}
