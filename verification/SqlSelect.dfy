/** SELECT: the index path and the full scan give the same rows. */
module SqlSelect {
  import opened Core
  import opened CatalogModel
  import opened IndexModel
  import opened PageModel
  import opened BTreeModel
  import opened BTreeHeap
  import opened BTreeLookup
  import opened BTreeTheorems
  import opened DbModel
  import opened HeapOps
  import opened HeapReads
  import opened IndexOps
  import opened RowCodec
  import opened Transactions
  import opened SqlModel
  import opened SqlInvariant
  import opened SqlSteps
  import opened SqlMeaning
  import opened Sql

  // What a SELECT means: filter and project every row of the table

  predicate AllBelow(indexes: seq<nat>, width: nat) {
    forall i :: 0 <= i < |indexes| ==> indexes[i] < width
  }

  /** Positions of the projected columns. */
  function ResolveProjection(columns: seq<ColumnDef>, projection: Projection): (r: Result<seq<nat>>)
    ensures r.Ok? ==> AllBelow(r.value, |columns|)
  {
    match projection
    case All => Ok(seq(|columns|, i requires 0 <= i < |columns| => i))
    case Columns(names) => ResolveColumns(columns, names)
  }

  function ResolveColumns(columns: seq<ColumnDef>, names: seq<Core.Text>): (r: Result<seq<nat>>)
    ensures r.Ok? ==> AllBelow(r.value, |columns|)
    decreases |names|
  {
    if names == [] then Ok([])
    else
      var i := FindColumn(columns, names[0]);
      if i == |columns| then Err(User)
      else
        var rest := ResolveColumns(columns, names[1..]);
        if rest.Err? then rest else Ok([i] + rest.value)
  }

  /** Position and literal of the WHERE clause, if there is one. */
  function ResolveSelection(columns: seq<ColumnDef>, selection: Option<Selection>): (r: Result<Option<(nat, Value)>>)
    ensures r.Ok? && r.value.Some? ==> r.value.value.0 < |columns|
  {
    match selection
    case None => Ok(None)
    case Some(s) =>
      var i := FindColumn(columns, s.column);
      if i == |columns| then Err(User) else Ok(Some((i, s.value)))
  }

  function Project(values: seq<Value>, projected: seq<nat>): seq<Value>
    requires AllBelow(projected, |values|)
  {
    seq(|projected|, i requires 0 <= i < |projected| => values[projected[i]])
  }

  predicate Selected(floats: Floats, values: seq<Value>, where: Option<(nat, Value)>) {
    where.Some? && where.value.0 < |values| ==> SqlEqual(floats, values[where.value.0], where.value.1)
  }

  /** The output of one row: one projected row, or none. */
  function Output(floats: Floats, row: HeapRow, projected: seq<nat>, where: Option<(nat, Value)>): seq<seq<Value>> {
    match ParseRow(row.bytes)
    case None => []
    case Some(values) =>
      if AllBelow(projected, |values|) && Selected(floats, values, where) then [Project(values, projected)] else []
  }

  function Answer(floats: Floats, rows: seq<HeapRow>, projected: seq<nat>, where: Option<(nat, Value)>): seq<seq<Value>> {
    if rows == [] then []
    else Output(floats, rows[0], projected, where) + Answer(floats, rows[1..], projected, where)
  }

  // Rows under a key

  function Hits(rows: seq<HeapRow>, column: nat, key: IndexKey): seq<HeapRow> {
    if rows == [] then []
    else (if KeyOfRow(rows[0], column) == Some(key) then [rows[0]] else []) + Hits(rows[1..], column, key)
  }

  /** Rows without the literal's key put nothing out. */
  lemma {:induction false} AnswerFromHits(
      floats: Floats, columns: seq<ColumnDef>, rows: seq<HeapRow>, projected: seq<nat>, column: nat, literal: Value, key: IndexKey)
    requires AllRowsTyped(columns, rows) && column < |columns| && Indexable(columns[column].typeName)
    requires IndexKeyOf(literal) == Some(key)
    ensures Answer(floats, rows, projected, Some((column, literal))) ==
            Answer(floats, Hits(rows, column, key), projected, Some((column, literal)))
  {
    if rows != [] {
      hide ParseRow, RowTyped, KeyOfRow, Output, Indexable, IndexKeyOf, AllRowsTyped, Utf8;
      FirstTyped(columns, rows);
      var rest := Hits(rows[1..], column, key);
      AnswerFromHits(floats, columns, rows[1..], projected, column, literal, key);
      if KeyOfRow(rows[0], column) == Some(key) {
        assert Hits(rows, column, key) == [rows[0]] + rest;
        assert ([rows[0]] + rest)[1..] == rest;
      } else {
        assert Hits(rows, column, key) == rest;
        MissPutsNothing(floats, columns, rows[0], projected, column, literal, key);
      }
    }
  }

  lemma MissPutsNothing(
      floats: Floats, columns: seq<ColumnDef>, row: HeapRow, projected: seq<nat>, column: nat, literal: Value, key: IndexKey)
    requires ParseRow(row.bytes).Some? && RowTyped(columns, ParseRow(row.bytes).value)
    requires column < |columns| && Indexable(columns[column].typeName)
    requires IndexKeyOf(literal) == Some(key) && KeyOfRow(row, column) != Some(key)
    ensures Output(floats, row, projected, Some((column, literal))) == []
  {
    hide ParseRow, SqlEqual, AllBelow, Project, Utf8;
    EqualMeansSameKey(floats, columns[column].typeName, ParseRow(row.bytes).value[column], literal);
  }

  lemma {:induction false} AnswerConcat(floats: Floats, a: seq<HeapRow>, b: seq<HeapRow>, projected: seq<nat>, where: Option<(nat, Value)>)
    ensures Answer(floats, a + b, projected, where) == Answer(floats, a, projected, where) + Answer(floats, b, projected, where)
  {
    hide Output;
    if a == [] {
      assert a + b == b;
    } else {
      AnswerConcat(floats, a[1..], b, projected, where);
      assert (a + b)[0] == a[0] && (a + b)[1..] == a[1..] + b;
      var first := Output(floats, a[0], projected, where);
      assert first + (Answer(floats, a[1..], projected, where) + Answer(floats, b, projected, where))
          == first + Answer(floats, a[1..], projected, where) + Answer(floats, b, projected, where);
    }
  }

  lemma AnswerMiddle(floats: Floats, rows: seq<HeapRow>, i: nat, projected: seq<nat>, where: Option<(nat, Value)>)
    requires i < |rows|
    ensures multiset(Answer(floats, rows, projected, where)) ==
            multiset(Output(floats, rows[i], projected, where))
            + multiset(Answer(floats, rows[..i] + rows[i + 1..], projected, where))
  {
    hide Output;
    var before, row, after := rows[..i], [rows[i]], rows[i + 1..];
    assert rows == before + row + after && row[1..] == [];
    AnswerConcat(floats, before + row, after, projected, where);
    AnswerConcat(floats, before, row, projected, where);
    AnswerConcat(floats, before, after, projected, where);
    assert Answer(floats, row, projected, where) == Output(floats, rows[i], projected, where) + Answer(floats, [], projected, where);
  }

  lemma TakeOut<T(!new)>(a: seq<T>, b: seq<T>, i: nat)
    requires multiset(a) == multiset(b) && a != [] && i < |b| && b[i] == a[0]
    ensures multiset(a[1..]) == multiset(b[..i] + b[i + 1..])
  {
    assert a == [a[0]] + a[1..];
    assert b == b[..i] + [b[i]] + b[i + 1..];
    var p, q, first := multiset(a[1..]), multiset(b[..i] + b[i + 1..]), multiset{a[0]};
    assert multiset(a) == p + first && multiset(b) == q + first;
    forall x ensures p[x] == q[x] {
      assert (p + first)[x] == (q + first)[x];
    }
  }

  /** The order rows come in does not matter. */
  lemma {:induction false} AnswerPermutes(
      floats: Floats, a: seq<HeapRow>, b: seq<HeapRow>, projected: seq<nat>, where: Option<(nat, Value)>)
    requires multiset(a) == multiset(b)
    ensures multiset(Answer(floats, a, projected, where)) == multiset(Answer(floats, b, projected, where))
  {
    hide Output, Answer;
    if a == [] {
      assert |multiset(b)| == 0;
      assert b == [];
    } else {
      assert a[0] in multiset(b);
      var i :| 0 <= i < |b| && b[i] == a[0];
      TakeOut(a, b, i);
      AnswerPermutes(floats, a[1..], b[..i] + b[i + 1..], projected, where);
      AnswerMiddle(floats, b, i, projected, where);
      AnswerMiddle(floats, a, 0, projected, where);
      assert a[..0] + a[1..] == a[1..];
    }
  }

  // The index finds the hits

  ghost predicate UniqueIds(rows: seq<HeapRow>) {
    forall i, j :: 0 <= i < |rows| && 0 <= j < |rows| && rows[i].rowId == rows[j].rowId ==> rows[i] == rows[j]
  }

  lemma {:induction false} CountIds(found: seq<HeapRow>, ids: seq<RowId>, x: HeapRow)
    requires |found| == |ids| && forall i :: 0 <= i < |ids| ==> found[i].rowId == ids[i]
    requires forall i :: 0 <= i < |found| && found[i].rowId == x.rowId ==> found[i] == x
    ensures multiset(found)[x] == multiset(ids)[x.rowId]
  {
    if found != [] {
      CountIds(found[1..], ids[1..], x);
      assert found == [found[0]] + found[1..] && ids == [ids[0]] + ids[1..];
    }
  }

  lemma {:induction false} CountHits(rows: seq<HeapRow>, column: nat, key: IndexKey, x: HeapRow)
    requires KeyOfRow(x, column) == Some(key)
    requires forall i :: 0 <= i < |rows| && rows[i].rowId == x.rowId ==> rows[i] == x
    ensures multiset(EntriesOf(rows, column))[IndexEntry(key, x.rowId)] == multiset(Hits(rows, column, key))[x]
  {
    hide KeyOfRow;
    if rows != [] {
      CountHits(rows[1..], column, key, x);
    }
  }

  lemma {:induction false} HitsAreRows(rows: seq<HeapRow>, column: nat, key: IndexKey, x: HeapRow)
    ensures x in Hits(rows, column, key) <==> x in rows && KeyOfRow(x, column) == Some(key)
  {
    hide KeyOfRow;
    if rows != [] {
      HitsAreRows(rows[1..], column, key, x);
      assert rows == [rows[0]] + rows[1..];
    }
  }

  lemma {:induction false} EntryHasRow(rows: seq<HeapRow>, column: nat, e: IndexEntry)
    requires e in EntriesOf(rows, column)
    ensures exists i :: 0 <= i < |rows| && rows[i].rowId == e.rowId && KeyOfRow(rows[i], column) == Some(e.key)
  {
    hide KeyOfRow;
    if e in EntryOf(rows[0], column) {
      assert rows[0].rowId == e.rowId && KeyOfRow(rows[0], column) == Some(e.key);
    } else {
      EntryHasRow(rows[1..], column, e);
      var i :| 0 <= i < |rows[1..]| && rows[1..][i].rowId == e.rowId && KeyOfRow(rows[1..][i], column) == Some(e.key);
      assert rows[i + 1] == rows[1..][i];
    }
  }

  /** Every row id the index returns is that of a row with the key. */
  lemma MatchIsHit(t: Tree, rows: seq<HeapRow>, column: nat, key: IndexKey, rowId: RowId)
    requires Contents(t) == multiset(EntriesOf(rows, column)) && rowId in Matches(Entries(t), key)
    ensures exists i :: 0 <= i < |rows| && rows[i].rowId == rowId && KeyOfRow(rows[i], column) == Some(key)
  {
    hide KeyOfRow, Entries, EntriesOf;
    var e := IndexEntry(key, rowId);
    MatchesCount(Entries(t), key, rowId);
    assert rowId in multiset(Matches(Entries(t), key));
    assert e in multiset(EntriesOf(rows, column));
    EntryHasRow(rows, column, e);
  }

  /** The rows read back for the index's row ids are exactly the rows under the key. */
  lemma FoundAreHits(t: Tree, rows: seq<HeapRow>, column: nat, key: IndexKey, ids: seq<RowId>, found: seq<HeapRow>)
    requires Contents(t) == multiset(EntriesOf(rows, column)) && ids == Matches(Entries(t), key)
    requires UniqueIds(rows)
    requires |found| == |ids| && forall i :: 0 <= i < |ids| ==> found[i].rowId == ids[i] && found[i] in rows
    ensures multiset(found) == multiset(Hits(rows, column, key))
  {
    hide KeyOfRow, Entries, EntriesOf, Hits, Matches;
    forall i | 0 <= i < |found| ensures KeyOfRow(found[i], column) == Some(key) {
      MatchIsHit(t, rows, column, key, ids[i]);
    }
    forall x | x in multiset(found) || x in multiset(Hits(rows, column, key))
      ensures multiset(found)[x] == multiset(Hits(rows, column, key))[x]
    {
      HitsAreRows(rows, column, key, x);
      CountIds(found, ids, x);
      CountHits(rows, column, key, x);
      MatchesCount(Entries(t), key, x.rowId);
    }
  }

  // Execution

  function FindIndexOn(indexes: seq<RelationInfo>, column: Core.Text): (r: Option<RelationInfo>)
    ensures r.Some? ==> r.value in indexes && r.value.storage.BPlusTree? && r.value.storage.columnName == column
    ensures r.None? ==> forall i :: 0 <= i < |indexes| && indexes[i].storage.BPlusTree? ==> indexes[i].storage.columnName != column
  {
    if indexes == [] then None
    else if indexes[0].storage.BPlusTree? && indexes[0].storage.columnName == column then Some(indexes[0])
    else FindIndexOn(indexes[1..], column)
  }

  /** A store that serves a table: its rows are typed, and their ids are theirs alone. */
  lemma TableServed(store: TransactionalStore, relation: RelationInfo)
    requires Serving(store) && TableOf(store.catalog, relation.id) == Ok(relation)
    ensures AllRowsTyped(relation.columns, Rows(store.disk.data, store.catalog, relation.id))
    ensures UniqueIds(Rows(store.disk.data, store.catalog, relation.id))
    ensures relation.storage.Heap? && HeapPagesAt(store.disk.data, relation.storage.pages)
    ensures Rows(store.disk.data, store.catalog, relation.id) == Scan(store.disk.data, relation.storage.pages)
  {
    hide Agree, TransactionalStore.Valid, AllRowsTyped, Storable, Scan, RowAt, Disjoint, NamesInv;
    var m, c := store.disk.data, store.catalog;
    var i := FindId(c.relations, relation.id);
    assert RelationInv(c.relations[i], m, store.forest, c.nextPageId);
    assert TableTyped(m, c, c.relations[i]);
    var rows := Scan(m, relation.storage.pages);
    forall a, b | 0 <= a < |rows| && 0 <= b < |rows| && rows[a].rowId == rows[b].rowId ensures rows[a] == rows[b] {
      ReadFindsScanned(m, relation, rows[a]);
      ReadFindsScanned(m, relation, rows[b]);
    }
  }

  /** An index on a table's column holds the entries of exactly its rows, under an indexable type. */
  lemma IndexServed(store: TransactionalStore, relation: RelationInfo, index: RelationInfo)
    requires Serving(store) && RelationById(store.catalog, relation.id) == Some(relation)
    requires index in IndexesOn(store.catalog.relations, relation.id)
    ensures HasIndex(store.catalog, index.id) && index.id in store.forest
    ensures var column := FindColumn(relation.columns, index.storage.columnName);
      && column < |relation.columns| && Indexable(relation.columns[column].typeName)
      && Contents(store.forest[index.id]) ==
         multiset(EntriesOf(Rows(store.disk.data, store.catalog, relation.id), column))
  {
    hide TransactionalStore.Valid, AllRowsTyped, Storable, Rows, Disjoint, FindColumn, EntriesOf, Contents, RelationInv, Utf8,
      Indexable, TableTyped;
    var m, c, forest := store.disk.data, store.catalog, store.forest;
    var i :| 0 <= i < |c.relations| && c.relations[i] == index;
    FindIdUnique(c.relations, i);
    assert IndexAgrees(m, c, forest, map[], c.relations[i]) && IndexTyped(c, c.relations[i]);
  }

  ghost predicate HasRow(rows: seq<HeapRow>, rowId: RowId) {
    exists i :: 0 <= i < |rows| && rows[i].rowId == rowId
  }

  /** Read the rows at the given addresses, skipping empty slots. */
  method FetchRows(store: TransactionalStore, relation: RelationInfo, rowIds: seq<RowId>) returns (r: Result<seq<HeapRow>>)
    requires Serving(store) && TableOf(store.catalog, relation.id) == Ok(relation)
    requires forall i :: 0 <= i < |rowIds| ==> HasRow(Rows(store.disk.data, store.catalog, relation.id), rowIds[i])
    ensures r.Ok? && |r.value| == |rowIds|
    ensures forall i :: 0 <= i < |rowIds| ==>
      r.value[i].rowId == rowIds[i] && r.value[i] in Rows(store.disk.data, store.catalog, relation.id)
  {
    hide Agree, AllTyped, TransactionalStore.Valid, InOrder, Rows, RowAt, Scan, AllRowsTyped;
    TableServed(store, relation);
    var rows: seq<HeapRow> := [];
    for i := 0 to |rowIds|
      invariant |rows| == i
      invariant forall j :: 0 <= j < i ==>
        rows[j].rowId == rowIds[j] && rows[j] in Rows(store.disk.data, store.catalog, relation.id)
    {
      ghost var all := Rows(store.disk.data, store.catalog, relation.id);
      assert HasRow(all, rowIds[i]);
      ghost var j :| 0 <= j < |all| && all[j].rowId == rowIds[i];
      ReadFindsScanned(store.disk.data, relation, all[j]);
      var found := store.ReadRow(relation.id, rowIds[i]);
      match found
      case Err(error) =>
        return Err(error);
      case Ok(None) =>
      case Ok(Some(heapRow)) =>
        rows := rows + [heapRow];
    }
    r := Ok(rows);
  }

  /** The rows a SELECT looks at: the whole table, or those under the literal's key of an index on the column. */
  ghost predicate Candidates(c: Catalog, relation: RelationInfo, rows: seq<HeapRow>, selection: Option<Selection>, found: seq<HeapRow>) {
    found == rows
    || (&& selection.Some? && IndexKeyOf(selection.value.value).Some?
        && var column := FindColumn(relation.columns, selection.value.column);
        && column < |relation.columns| && Indexable(relation.columns[column].typeName)
        && multiset(found) == multiset(Hits(rows, column, IndexKeyOf(selection.value.value).value)))
  }

  method CandidateRows(store: TransactionalStore, relation: RelationInfo, selection: Option<Selection>)
    returns (r: Result<seq<HeapRow>>)
    requires Serving(store) && RelationById(store.catalog, relation.id) == Some(relation)
    ensures TableOf(store.catalog, relation.id).Err? ==> r == Err(User)
    ensures TableOf(store.catalog, relation.id).Ok? ==>
      r.Ok? && Candidates(store.catalog, relation, Rows(store.disk.data, store.catalog, relation.id), selection, r.value)
  {
    hide SqlInv, TransactionalStore.Valid, InOrder, Rows, IndexesOn, FindColumn, FindId, Contents, Entries, EntriesOf, Hits,
      Matches, AllRowsTyped, UniqueIds, Indexable, HeapPagesAt, Scan, HasRow;
    match selection
    case None =>
      r := store.FullScan(relation.id);
    case Some(s) =>
      var index := FindIndexOn(IndexesOn(store.catalog.relations, relation.id), s.column);
      match index
      case None =>
        r := store.FullScan(relation.id);
      case Some(indexRelation) =>
        match IndexKeyOf(s.value)
        case None =>
          r := store.FullScan(relation.id);
        case Some(key) =>
          IndexServed(store, relation, indexRelation);
          IndexedIsTable(store, relation, indexRelation);
          TableServed(store, relation);
          var looked := store.LookupIndex(indexRelation.id, key);
          match looked
          case Err(error) =>
            r := Err(error);
          case Ok(rowIds) =>
            ghost var rows := Rows(store.disk.data, store.catalog, relation.id);
            ghost var column := FindColumn(relation.columns, s.column);
            ghost var t := store.forest[indexRelation.id];
            MatchesAreHits(t, rows, column, key, rowIds);
            r := FetchRows(store, relation, rowIds);
            FoundAreHits(t, rows, column, key, rowIds, r.value);
  }

  lemma IndexedIsTable(store: TransactionalStore, relation: RelationInfo, index: RelationInfo)
    requires Serving(store) && RelationById(store.catalog, relation.id) == Some(relation)
    requires index in IndexesOn(store.catalog.relations, relation.id)
    ensures TableOf(store.catalog, relation.id) == Ok(relation)
  {
    hide TransactionalStore.Valid, SqlInv, Storable, Disjoint, FindColumn, RelationInv;
    var c := store.catalog;
    var i :| 0 <= i < |c.relations| && c.relations[i] == index;
    assert IndexInv(c, c.relations[i]);
  }

  lemma MatchesAreHits(t: Tree, rows: seq<HeapRow>, column: nat, key: IndexKey, ids: seq<RowId>)
    requires Contents(t) == multiset(EntriesOf(rows, column)) && ids == Matches(Entries(t), key)
    ensures forall i :: 0 <= i < |ids| ==> HasRow(rows, ids[i])
  {
    hide KeyOfRow, Entries, EntriesOf, Matches, Contents;
    forall i | 0 <= i < |ids| ensures HasRow(rows, ids[i]) {
      MatchIsHit(t, rows, column, key, ids[i]);
    }
  }

  /** Filter and project, row by row. */
  method OutputRows(
      floats: Floats, columns: seq<ColumnDef>, found: seq<HeapRow>, projected: seq<nat>, where: Option<(nat, Value)>)
    returns (r: Result<seq<seq<Value>>>)
    requires AllRowsTyped(columns, found) && AllBelow(projected, |columns|)
    requires where.Some? ==> where.value.0 < |columns|
    ensures r == Ok(Answer(floats, found, projected, where))
  {
    hide ParseRow, SqlEqual, Utf8;
    var rows: seq<seq<Value>> := [];
    for i := 0 to |found|
      invariant rows == Answer(floats, found[..i], projected, where)
    {
      match ParseRow(found[i].bytes)
      case None =>
        return Err(Corruption);
      case Some(values) =>
        if |values| != |columns| {
          return Err(Corruption);
        }
        assert found[..i + 1] == found[..i] + [found[i]];
        AnswerConcat(floats, found[..i], [found[i]], projected, where);
        AnswerOne(floats, found[i], projected, where);
        if where.None? || SqlEqual(floats, values[where.value.0], where.value.1) {
          rows := rows + [Project(values, projected)];
        }
    }
    assert found[..|found|] == found;
    r := Ok(rows);
  }

  lemma AnswerOne(floats: Floats, row: HeapRow, projected: seq<nat>, where: Option<(nat, Value)>)
    ensures Answer(floats, [row], projected, where) == Output(floats, row, projected, where)
  {
    hide Output;
    assert [row][1..] == [];
    assert Answer(floats, [row], projected, where) == Output(floats, row, projected, where) + Answer(floats, [], projected, where);
  }

  /** What SELECT works on, when the table is one and every column resolves. */
  function SelectTarget(c: Catalog, projection: Projection, table: Core.Text, selection: Option<Selection>)
    : Result<(RelationInfo, seq<nat>, Option<(nat, Value)>)>
  {
    match RelationByName(c, table)
    case None => Err(User)
    case Some(relation) =>
      match ResolveProjection(relation.columns, projection)
      case Err(error) => Err(error)
      case Ok(projected) =>
        match ResolveSelection(relation.columns, selection)
        case Err(error) => Err(error)
        case Ok(where) => Ok((relation, projected, where))
  }

  function OutputColumns(columns: seq<ColumnDef>, projected: seq<nat>): seq<ColumnDef>
    requires AllBelow(projected, |columns|)
  {
    seq(|projected|, i requires 0 <= i < |projected| => columns[projected[i]])
  }

  /** The result of a SELECT: an error when the table or a column is unknown or the name is an index, else the filtered
  and projected rows of the whole table in some order. */
  ghost predicate Answered(
      m: PageMap, c: Catalog, floats: Floats, projection: Projection, table: Core.Text, selection: Option<Selection>,
      r: Result<ExecResult>)
  {
    match SelectTarget(c, projection, table, selection)
    case Err(error) => r == Err(error)
    case Ok((relation, projected, where)) =>
      if TableOf(c, relation.id).Err? then r == Err(User)
      else
        && r.Ok? && r.value.Query?
        && r.value.columns == OutputColumns(relation.columns, projected)
        && multiset(r.value.rows) == multiset(Answer(floats, Rows(m, c, relation.id), projected, where))
  }

  // What that answer means

  lemma {:induction false} ColumnsResolved(columns: seq<ColumnDef>, names: seq<Core.Text>)
    ensures match ResolveColumns(columns, names)
      case Err(error) => error == User && exists j :: 0 <= j < |names| && !HasColumn(columns, names[j])
      case Ok(projected) =>
        |projected| == |names| && forall j :: 0 <= j < |names| ==> IsColumn(columns, names[j], projected[j])
    decreases |names|
  {
    hide Utf8;
    if names != [] {
      ColumnsResolved(columns, names[1..]);
      var i, rest := FindColumn(columns, names[0]), names[1..];
      if i < |columns| {
        match ResolveColumns(columns, rest)
        case Err(_) =>
          var j :| 0 <= j < |rest| && !HasColumn(columns, rest[j]);
          assert names[j + 1] == rest[j];
        case Ok(projected) =>
          forall j | 1 <= j < |names| ensures IsColumn(columns, names[j], ([i] + projected)[j]) {
            assert IsColumn(columns, rest[j - 1], projected[j - 1]);
          }
      } else {
        assert !HasColumn(columns, names[0]);
      }
    }
  }

  /** The projected positions pick the columns asked for, in that order, out of a row or out of the columns themselves. */
  lemma ProjectionExact(columns: seq<ColumnDef>, projection: Projection)
    ensures match ResolveProjection(columns, projection)
      case Err(error) => error == User && !Resolves(columns, projection, None)
      case Ok(projected) =>
        && Resolves(columns, projection, None)
        && Picks(columns, projection, columns, OutputColumns(columns, projected))
        && forall row :: |row| == |columns| ==> Picks(columns, projection, row, Project(row, projected))
  {
    hide Utf8, FindColumn;
    match projection
    case All =>
    case Columns(names) =>
      ColumnsResolved(columns, names);
      if ResolveColumns(columns, names).Ok? {
        var projected := ResolveColumns(columns, names).value;
        forall j | 0 <= j < |names| ensures HasColumn(columns, names[j]) {
          assert IsColumn(columns, names[j], projected[j]);
        }
        forall row: seq<Value>, j | |row| == |columns| && 0 <= j < |names|
          ensures Under(columns, names[j], row, Project(row, projected)[j])
        {
          assert IsColumn(columns, names[j], projected[j]);
        }
        forall j | 0 <= j < |names| ensures Under(columns, names[j], columns, OutputColumns(columns, projected)[j]) {
          assert IsColumn(columns, names[j], projected[j]);
        }
      }
  }

  /** The WHERE clause passes exactly the rows whose value under its column equals the literal. */
  lemma SelectionExact(floats: Floats, columns: seq<ColumnDef>, selection: Option<Selection>)
    ensures match ResolveSelection(columns, selection)
      case Err(error) => error == User && !Resolves(columns, All, selection)
      case Ok(where) =>
        && Resolves(columns, All, selection)
        && forall row :: |row| == |columns| ==> (Selected(floats, row, where) <==> Passes(floats, columns, selection, row))
  {
    hide Utf8, SqlEqual, EqualValues;
    if selection.Some? {
      var s := selection.value;
      var i := FindColumn(columns, s.column);
      if i < |columns| {
        forall row: seq<Value> | |row| == |columns|
          ensures SqlEqual(floats, row[i], s.value) <==> Passes(floats, columns, selection, row)
        {
          EqualityExact(floats, row[i], s.value);
          assert IsColumn(columns, s.column, i);
          assert Under(columns, s.column, row, row[i]);
          forall v | Under(columns, s.column, row, v) ensures v == row[i] {
            var p: nat :| IsColumn(columns, s.column, p) && p < |row| && row[p] == v;
            assert p == i;
          }
        }
      }
    }
  }

  lemma KeptMore(
      floats: Floats, columns: seq<ColumnDef>, selection: Option<Selection>, row: seq<Value>, rows: seq<seq<Value>>,
      kept: seq<seq<Value>>)
    requires Kept(floats, TableView(columns, multiset(rows)), selection, kept)
    ensures Kept(floats, TableView(columns, multiset([row] + rows)), selection,
                 if Passes(floats, columns, selection, row) then [row] + kept else kept)
  {
    hide Passes;
  }

  lemma PickMore(
      columns: seq<ColumnDef>, projection: Projection, kept: seq<seq<Value>>, rows: seq<seq<Value>>, row: seq<Value>,
      picked: seq<Value>)
    requires AllPick(columns, projection, kept, rows) && Picks(columns, projection, row, picked)
    ensures AllPick(columns, projection, [row] + kept, [picked] + rows)
  {
    hide Picks;
  }

  /** One row's output: its projection if it passes. */
  lemma OutputMeans(
      floats: Floats, columns: seq<ColumnDef>, row: HeapRow, values: seq<Value>, projection: Projection, projected: seq<nat>,
      selection: Option<Selection>, where: Option<(nat, Value)>)
    requires ParseRow(row.bytes) == Some(values) && |values| == |columns|
    requires ResolveProjection(columns, projection) == Ok(projected) && ResolveSelection(columns, selection) == Ok(where)
    ensures AllBelow(projected, |values|)
    ensures Output(floats, row, projected, where) ==
            if Passes(floats, columns, selection, values) then [Project(values, projected)] else []
    ensures Picks(columns, projection, values, Project(values, projected))
  {
    hide Utf8, ParseRow, ResolveProjection, ResolveSelection, Passes, Picks, Project, Selected;
    ProjectionExact(columns, projection);
    SelectionExact(floats, columns, selection);
  }

  lemma FirstTyped(columns: seq<ColumnDef>, rows: seq<HeapRow>)
    requires AllRowsTyped(columns, rows) && rows != []
    ensures AllRowsTyped(columns, rows[1..])
    ensures ParseRow(rows[0].bytes).Some? && RowTyped(columns, ParseRow(rows[0].bytes).value)
    ensures |ParseRow(rows[0].bytes).value| == |columns|
    ensures RowValues(rows) == [ParseRow(rows[0].bytes).value] + RowValues(rows[1..])
  {
    hide ParseRow, Typed, Utf8;
  }

  lemma FirstAnswered(floats: Floats, rows: seq<HeapRow>, projected: seq<nat>, where: Option<(nat, Value)>)
    requires rows != []
    ensures Answer(floats, rows, projected, where) ==
            Output(floats, rows[0], projected, where) + Answer(floats, rows[1..], projected, where)
  {
    hide Output;
  }

  /** Which rows an answer comes from: those that pass, each giving its projection. */
  lemma {:induction false} AnswerComesFrom(
      floats: Floats, columns: seq<ColumnDef>, rows: seq<HeapRow>, projection: Projection, projected: seq<nat>,
      selection: Option<Selection>, where: Option<(nat, Value)>)
    returns (kept: seq<seq<Value>>)
    requires AllRowsTyped(columns, rows)
    requires ResolveProjection(columns, projection) == Ok(projected) && ResolveSelection(columns, selection) == Ok(where)
    ensures Kept(floats, TableView(columns, multiset(RowValues(rows))), selection, kept)
    ensures AllPick(columns, projection, kept, Answer(floats, rows, projected, where))
  {
    if rows == [] {
      kept := [];
    } else {
      hide Utf8, ParseRow, ResolveProjection, ResolveSelection, Passes, Picks, Project, RowTyped, AllRowsTyped, Output, Kept,
        AllPick, Answer, RowValues, AllBelow;
      FirstTyped(columns, rows);
      FirstAnswered(floats, rows, projected, where);
      var rest := AnswerComesFrom(floats, columns, rows[1..], projection, projected, selection, where);
      var row := ParseRow(rows[0].bytes).value;
      OutputMeans(floats, columns, rows[0], row, projection, projected, selection, where);
      KeptMore(floats, columns, selection, row, RowValues(rows[1..]), rest);
      PickMore(columns, projection, rest, Answer(floats, rows[1..], projected, where), row, Project(row, projected));
      kept := if Passes(floats, columns, selection, row) then [row] + rest else rest;
    }
  }

  ghost predicate PairAt<A(!new), B(!new)>(a: seq<A>, along: seq<B>, x: A, y: B) {
    exists i :: 0 <= i < |a| && i < |along| && a[i] == x && along[i] == y
  }

  /** Whatever stands side by side in `b` and `permuted` does so in `a` and `along`. */
  ghost predicate Paired<A(!new), B(!new)>(a: seq<A>, along: seq<B>, b: seq<A>, permuted: seq<B>) {
    |permuted| == |b| && forall j :: 0 <= j < |b| ==> PairAt(a, along, b[j], permuted[j])
  }

  lemma PairedInsert<A(!new), B(!new)>(a: seq<A>, along: seq<B>, b: seq<A>, k: nat, rest: seq<B>)
    requires |a| == |along| > 0 && k < |b| && b[k] == a[0]
    requires Paired(a[1..], along[1..], b[..k] + b[k + 1..], rest)
    ensures Paired(a, along, b, rest[..k] + [along[0]] + rest[k..])
  {
    var permuted := rest[..k] + [along[0]] + rest[k..];
    forall j | 0 <= j < |b| ensures PairAt(a, along, b[j], permuted[j]) {
      if j != k {
        var j' := if j < k then j else j - 1;
        assert PairAt(a[1..], along[1..], (b[..k] + b[k + 1..])[j'], rest[j']);
        var i :| 0 <= i < |a[1..]| && a[1..][i] == b[j] && along[1..][i] == permuted[j];
        assert a[i + 1] == b[j] && along[i + 1] == permuted[j];
      }
    }
  }

  /** Put `along` in the order that takes `a` to `b`. */
  lemma {:induction false} PermuteAlong<A(!new), B(!new)>(a: seq<A>, along: seq<B>, b: seq<A>) returns (permuted: seq<B>)
    requires |a| == |along| && multiset(a) == multiset(b)
    ensures multiset(permuted) == multiset(along) && Paired(a, along, b, permuted)
  {
    if a == [] {
      assert |multiset(b)| == 0;
      permuted := [];
    } else {
      hide Paired;
      assert a[0] in multiset(b);
      var k :| 0 <= k < |b| && b[k] == a[0];
      TakeOut(a, b, k);
      var rest := PermuteAlong(a[1..], along[1..], b[..k] + b[k + 1..]);
      assert |rest| == |b| - 1 by { PairedLength(a[1..], along[1..], b[..k] + b[k + 1..], rest); }
      permuted := rest[..k] + [along[0]] + rest[k..];
      PairedInsert(a, along, b, k, rest);
      assert along == [along[0]] + along[1..] && rest == rest[..k] + rest[k..];
    }
  }

  lemma PairedLength<A(!new), B(!new)>(a: seq<A>, along: seq<B>, b: seq<A>, permuted: seq<B>)
    requires Paired(a, along, b, permuted)
    ensures |permuted| == |b|
  {
  }

  /** Any order of the answer still consists of the projections of the rows that pass. */
  lemma AnswerMeans(
      floats: Floats, columns: seq<ColumnDef>, rows: seq<HeapRow>, projection: Projection, projected: seq<nat>,
      selection: Option<Selection>, where: Option<(nat, Value)>, out: seq<seq<Value>>)
    requires AllRowsTyped(columns, rows)
    requires ResolveProjection(columns, projection) == Ok(projected) && ResolveSelection(columns, selection) == Ok(where)
    requires multiset(out) == multiset(Answer(floats, rows, projected, where))
    ensures Answers(floats, TableView(columns, multiset(RowValues(rows))), projection, selection,
                    OutputColumns(columns, projected), out)
  {
    hide Utf8, ParseRow, ResolveProjection, ResolveSelection, Passes, Picks, Project, RowTyped, Answer, RowValues;
    ProjectionExact(columns, projection);
    var answer := Answer(floats, rows, projected, where);
    var kept := AnswerComesFrom(floats, columns, rows, projection, projected, selection, where);
    var permuted := PermuteAlong(answer, kept, out);
    assert Kept(floats, TableView(columns, multiset(RowValues(rows))), selection, permuted);
    forall k | 0 <= k < |out| ensures Picks(columns, projection, permuted[k], out[k]) {
      assert PairAt(answer, kept, out[k], permuted[k]);
    }
  }

  /** The table and every column are known. */
  ghost predicate Known(db: Db, projection: Projection, table: Core.Text, selection: Option<Selection>) {
    table in db.tables && Resolves(db.tables[table].columns, projection, selection)
  }

  /** What the code answers is what the statement means. */
  lemma AnsweredMeans(
      store: TransactionalStore, floats: Floats, projection: Projection, table: Core.Text, selection: Option<Selection>,
      r: Result<ExecResult>)
    requires Serving(store)
    requires Answered(store.disk.data, store.catalog, floats, projection, table, selection, r)
    ensures Does(floats, Select(projection, table, selection), Held(store), Held(store), r)
    ensures r.Ok? <==> Known(Held(store), projection, table, selection)
    ensures r.Err? ==> r.error == User
  {
    hide Utf8, Serving, Rows, RowValues, FindId, FindName, Answer, AllRowsTyped, Picks, Answers, RelationById,
      ResolveProjection, ResolveSelection, OutputColumns, SqlInv, InOrder, DbOf, HeapPagesAt, Scan, UniqueIds, HasColumn,
      IndexNamed;
    HeldIs(store);
    var m, c := store.disk.data, store.catalog;
    match RelationByName(c, table)
    case None =>
    case Some(relation) =>
      ProjectionExact(relation.columns, projection);
      SelectionExact(floats, relation.columns, selection);
      SelectedTable(store, table);
      if relation.kind == Table {
        assert TableNamed(m, c, table).Some?;
        TableServed(store, relation);
        if SelectTarget(c, projection, table, selection).Ok? {
          var (_, projected, where) := SelectTarget(c, projection, table, selection).value;
          AnswerMeans(floats, relation.columns, Rows(m, c, relation.id), projection, projected, selection, where, r.value.rows);
        }
      }
  }

  /** SELECT answers with the filtered, projected rows of the whole table, whichever way it reads them. It fails exactly
  for an unknown table or column. */
  method ExecuteSelect(
      store: TransactionalStore, floats: Floats, projection: Projection, table: Core.Text, selection: Option<Selection>)
    returns (r: Result<ExecResult>)
    requires Serving(store)
    ensures Does(floats, Select(projection, table, selection), Held(store), Held(store), r)
    ensures r.Ok? <==> Known(Held(store), projection, table, selection)
    ensures r.Err? ==> r.error == User
    ensures Answered(store.disk.data, store.catalog, floats, projection, table, selection, r)
  {
    hide Answered, Does, Known, Serving, DbOf;
    r := Evaluate(store, floats, projection, table, selection);
    AnsweredMeans(store, floats, projection, table, selection, r);
  }

  method Evaluate(
      store: TransactionalStore, floats: Floats, projection: Projection, table: Core.Text, selection: Option<Selection>)
    returns (r: Result<ExecResult>)
    requires Serving(store)
    ensures Answered(store.disk.data, store.catalog, floats, projection, table, selection, r)
  {
    hide Agree, AllTyped, TransactionalStore.Valid, InOrder, Rows, FindId, FindColumn, Answer;
    match SelectTarget(store.catalog, projection, table, selection)
    case Err(error) =>
      r := Err(error);
    case Ok((relation, projected, where)) =>
      SelectedTable(store, table);
      var candidates := CandidateRows(store, relation, selection);
      match candidates
      case Err(error) =>
        r := Err(error);
      case Ok(found) =>
        CandidatesAnswer(store, floats, relation, projected, where, selection, found);
        var output := OutputRows(floats, relation.columns, found, projected, where);
        match output
        case Err(error) =>
          r := Err(error);
        case Ok(rows) =>
          r := Ok(Query(OutputColumns(relation.columns, projected), rows));
  }

  lemma SelectedTable(store: TransactionalStore, table: Core.Text)
    requires Serving(store) && RelationByName(store.catalog, table).Some?
    ensures RelationById(store.catalog, RelationByName(store.catalog, table).value.id) == RelationByName(store.catalog, table)
  {
    hide Agree, AllTyped, TransactionalStore.Valid, Storable, RelationInv, Disjoint;
    ByNameIsById(store.catalog, table);
  }

  lemma CandidatesAnswer(
      store: TransactionalStore, floats: Floats, relation: RelationInfo, projected: seq<nat>, where: Option<(nat, Value)>,
      selection: Option<Selection>, found: seq<HeapRow>)
    requires Serving(store) && TableOf(store.catalog, relation.id) == Ok(relation)
    requires ResolveSelection(relation.columns, selection) == Ok(where)
    requires Candidates(store.catalog, relation, Rows(store.disk.data, store.catalog, relation.id), selection, found)
    ensures AllRowsTyped(relation.columns, found)
    ensures multiset(Answer(floats, found, projected, where)) ==
            multiset(Answer(floats, Rows(store.disk.data, store.catalog, relation.id), projected, where))
  {
    hide Agree, AllTyped, TransactionalStore.Valid, InOrder, Rows, FindId, FindColumn, Answer, Hits, ParseRow, RowTyped;
    var rows := Rows(store.disk.data, store.catalog, relation.id);
    TableServed(store, relation);
    if found != rows {
      var column, key := where.value.0, IndexKeyOf(selection.value.value).value;
      AnswerFromHits(floats, relation.columns, rows, projected, column, selection.value.value, key);
      AnswerPermutes(floats, found, Hits(rows, column, key), projected, where);
      forall i | 0 <= i < |found|
        ensures ParseRow(found[i].bytes).Some? && RowTyped(relation.columns, ParseRow(found[i].bytes).value)
      {
        assert found[i] in multiset(found);
        HitsAreRows(rows, column, key, found[i]);
      }
    }
  }
}
