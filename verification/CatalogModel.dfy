/** The catalog as a value, and what each metadata operation does to it. */
module CatalogModel {
  import opened Core

  const CATALOG_PAGE_ID: PageId := 0

  datatype RelationKind = Table | Index | System

  datatype ColumnDef = ColumnDef(name: Text, typeName: Text)

  datatype ExtensionInfo = ExtensionInfo(name: Text, abiVersion: u32, kind: Text)

  datatype StorageObject =
    | Heap(pages: seq<PageId>)
    | BPlusTree(tableId: RelationId, columnName: Text, rootPageId: PageId)

  datatype RelationInfo = RelationInfo(
    id: RelationId, name: Text, kind: RelationKind, storage: StorageObject, columns: seq<ColumnDef>)

  datatype Catalog = Catalog(
    nextRelationId: u64, nextPageId: u64, relations: seq<RelationInfo>, extensions: seq<ExtensionInfo>)

  const EMPTY_CATALOG: Catalog := Catalog(1, 1, [], [])

  /** "INDEX_KEY": the type name of an index relation's one column. */
  const INDEX_KEY_TYPE: Text := [0x49, 0x4E, 0x44, 0x45, 0x58, 0x5F, 0x4B, 0x45, 0x59]

  predicate ValidName(name: Text) {
    0 < |name| <= U16_MAX
  }

  predicate ValidColumns(columns: seq<ColumnDef>) {
    && |columns| <= U16_MAX
    && (forall i :: 0 <= i < |columns| ==> ValidName(columns[i].name) && ValidName(columns[i].typeName))
    && (forall i, j :: 0 <= i < j < |columns| ==> columns[i].name != columns[j].name)
  }

  // Lookups: the first match, or the length

  function FindId(relations: seq<RelationInfo>, id: RelationId): (i: nat)
    ensures i <= |relations|
    ensures i < |relations| ==> relations[i].id == id
    ensures forall j :: 0 <= j < i ==> relations[j].id != id
  {
    if relations == [] || relations[0].id == id then 0 else 1 + FindId(relations[1..], id)
  }

  function FindName(relations: seq<RelationInfo>, name: Text): (i: nat)
    ensures i <= |relations|
    ensures i < |relations| ==> relations[i].name == name
    ensures forall j :: 0 <= j < i ==> relations[j].name != name
  {
    if relations == [] || relations[0].name == name then 0 else 1 + FindName(relations[1..], name)
  }

  function FindColumn(columns: seq<ColumnDef>, name: Text): (i: nat)
    ensures i <= |columns|
    ensures i < |columns| ==> columns[i].name == name
    ensures forall j :: 0 <= j < i ==> columns[j].name != name
  {
    if columns == [] || columns[0].name == name then 0 else 1 + FindColumn(columns[1..], name)
  }

  function RelationById(c: Catalog, id: RelationId): Option<RelationInfo> {
    var i := FindId(c.relations, id);
    if i < |c.relations| then Some(c.relations[i]) else None
  }

  function RelationByName(c: Catalog, name: Text): Option<RelationInfo> {
    var i := FindName(c.relations, name);
    if i < |c.relations| then Some(c.relations[i]) else None
  }

  predicate IsIndexOn(r: RelationInfo, tableId: RelationId) {
    r.kind == Index && r.storage.BPlusTree? && r.storage.tableId == tableId
  }

  /** The indexes of a table, in catalog order. */
  function IndexesOn(relations: seq<RelationInfo>, tableId: RelationId): (s: seq<RelationInfo>)
    ensures forall r :: r in s <==> r in relations && IsIndexOn(r, tableId)
  {
    if relations == [] then []
    else (if IsIndexOn(relations[0], tableId) then [relations[0]] else []) + IndexesOn(relations[1..], tableId)
  }

  predicate Indexed(c: Catalog, tableId: RelationId, columnName: Text) {
    exists r :: r in IndexesOn(c.relations, tableId) && r.storage.columnName == columnName
  }

  // Operations; a failed one may have consumed a relation id

  datatype Change<+T> = Change(catalog: Catalog, result: Result<T>)

  function AddRelation(c: Catalog, name: Text, kind: RelationKind, storage: StorageObject, columns: seq<ColumnDef>)
    : Change<(RelationId, PageId)>
  {
    if c.nextRelationId == U64_MAX then Change(c, Err(User))
    else
      var c1 := c.(nextRelationId := c.nextRelationId + 1);
      if c.nextPageId == U64_MAX then Change(c1, Err(User))
      else
        var r := RelationInfo(c.nextRelationId, name, kind, storage, columns);
        Change(c1.(nextPageId := c.nextPageId + 1, relations := c.relations + [r]), Ok((c.nextRelationId, c.nextPageId)))
  }

  function CreateTableMetadata(c: Catalog, name: Text, columns: seq<ColumnDef>): Change<(RelationId, PageId)> {
    if !ValidName(name) || !ValidColumns(columns) || RelationByName(c, name).Some? then Change(c, Err(User))
    else AddRelation(c, name, Table, Heap([c.nextPageId]), columns)
  }

  function CreateIndexMetadata(c: Catalog, name: Text, tableId: RelationId, columnName: Text): Change<(RelationId, PageId)> {
    if !ValidName(name) || !ValidName(columnName) || RelationByName(c, name).Some? then Change(c, Err(User))
    else
      match RelationById(c, tableId)
      case None => Change(c, Err(User))
      case Some(table) =>
        if table.kind != Table || FindColumn(table.columns, columnName) == |table.columns|
           || Indexed(c, tableId, columnName)
        then Change(c, Err(User))
        else AddRelation(c, name, Index, BPlusTree(tableId, columnName, c.nextPageId), [ColumnDef(columnName, INDEX_KEY_TYPE)])
  }

  function AppendHeapPage(c: Catalog, id: RelationId, page: PageId): Result<Catalog> {
    var i := FindId(c.relations, id);
    if i == |c.relations| || c.relations[i].kind != Table then Err(User)
    else
      var r := c.relations[i];
      match r.storage
      case Heap(pages) => Ok(c.(relations := c.relations[i := r.(storage := Heap(pages + [page]))]))
      case BPlusTree(_, _, _) => Err(InternalInvariant)
  }

  function SetIndexRootPage(c: Catalog, id: RelationId, root: PageId): Result<Catalog> {
    var i := FindId(c.relations, id);
    if i == |c.relations| || c.relations[i].kind != Index then Err(User)
    else
      var r := c.relations[i];
      match r.storage
      case Heap(_) => Err(InternalInvariant)
      case BPlusTree(tableId, columnName, _) =>
        Ok(c.(relations := c.relations[i := r.(storage := BPlusTree(tableId, columnName, root))]))
  }

  // What the operations promise

  ghost predicate NameTaken(c: Catalog, name: Text) {
    exists i :: 0 <= i < |c.relations| && c.relations[i].name == name
  }

  predicate IdsLeft(c: Catalog) {
    c.nextRelationId < U64_MAX && c.nextPageId < U64_MAX
  }

  /** `c'` is `c` with relation `r` added, which took one relation id and one page id. */
  ghost predicate Added(c: Catalog, c': Catalog, r: RelationInfo) {
    && IdsLeft(c) && r.id == c.nextRelationId
    && c' == Catalog(c.nextRelationId + 1, c.nextPageId + 1, c.relations + [r], c.extensions)
  }

  /** A refused operation leaves all but the relation id counter. */
  ghost predicate Refused(c: Catalog, c': Catalog) {
    && c'.relations == c.relations && c'.extensions == c.extensions && c'.nextPageId == c.nextPageId
    && c.nextRelationId <= c'.nextRelationId
  }

  ghost predicate TableAllowed(c: Catalog, name: Text, columns: seq<ColumnDef>) {
    && 1 <= |name| < 0x1_0000 && |columns| < 0x1_0000
    && (forall i :: 0 <= i < |columns| ==> 1 <= |columns[i].name| < 0x1_0000 && 1 <= |columns[i].typeName| < 0x1_0000)
    && (forall i, j :: 0 <= i < |columns| && 0 <= j < |columns| && columns[i].name == columns[j].name ==> i == j)
    && !NameTaken(c, name) && IdsLeft(c)
  }

  lemma NameTakenFound(c: Catalog, name: Text)
    ensures RelationByName(c, name).Some? <==> NameTaken(c, name)
  {
  }

  /** A table is added under its name with its columns and one page, unless the name or a column is bad, the name is
  taken or ids have run out. */
  lemma TableMetadataExact(c: Catalog, name: Text, columns: seq<ColumnDef>)
    ensures var s := CreateTableMetadata(c, name, columns);
      if TableAllowed(c, name, columns)
      then s.result == Ok((c.nextRelationId, c.nextPageId))
           && Added(c, s.catalog, RelationInfo(c.nextRelationId, name, Table, Heap([c.nextPageId]), columns))
      else s.result == Err(User) && Refused(c, s.catalog)
  {
    NameTakenFound(c, name);
  }

  ghost predicate HasColumn(columns: seq<ColumnDef>, name: Text) {
    exists i :: 0 <= i < |columns| && columns[i].name == name
  }

  /** Some index is on that column of that table. */
  ghost predicate ColumnIndexed(c: Catalog, tableId: RelationId, columnName: Text) {
    exists i :: 0 <= i < |c.relations| && IsIndexOn(c.relations[i], tableId) && c.relations[i].storage.columnName == columnName
  }

  lemma ColumnIndexedFound(c: Catalog, tableId: RelationId, columnName: Text)
    ensures Indexed(c, tableId, columnName) <==> ColumnIndexed(c, tableId, columnName)
  {
    if ColumnIndexed(c, tableId, columnName) {
      var i :| 0 <= i < |c.relations| && IsIndexOn(c.relations[i], tableId) && c.relations[i].storage.columnName == columnName;
      assert c.relations[i] in IndexesOn(c.relations, tableId);
    }
  }

  ghost predicate IndexAllowed(c: Catalog, name: Text, tableId: RelationId, columnName: Text) {
    && 1 <= |name| < 0x1_0000 && 1 <= |columnName| < 0x1_0000 && !NameTaken(c, name) && IdsLeft(c)
    && (match RelationById(c, tableId)
        case None => false
        case Some(table) => table.kind == Table && HasColumn(table.columns, columnName))
    && !ColumnIndexed(c, tableId, columnName)
  }

  /** An index is added on that column of that table, unless a name is bad, the name is taken, the table or column is
  not one, the column has an index or ids have run out. */
  lemma IndexMetadataExact(c: Catalog, name: Text, tableId: RelationId, columnName: Text)
    ensures var s := CreateIndexMetadata(c, name, tableId, columnName);
      if IndexAllowed(c, name, tableId, columnName)
      then s.result == Ok((c.nextRelationId, c.nextPageId))
           && Added(c, s.catalog, RelationInfo(c.nextRelationId, name, Index, BPlusTree(tableId, columnName, c.nextPageId),
                                               [ColumnDef(columnName, INDEX_KEY_TYPE)]))
      else s.result == Err(User) && Refused(c, s.catalog)
  {
    hide IndexesOn, Utf8;
    NameTakenFound(c, name);
    ColumnIndexedFound(c, tableId, columnName);
  }

  /** The new relation's name finds it, and every other name finds what it found. */
  ghost predicate NewlyNamed(c: Catalog, c': Catalog, r: RelationInfo) {
    && RelationByName(c, r.name) == None && RelationByName(c', r.name) == Some(r)
    && forall name :: name != r.name ==> RelationByName(c', name) == RelationByName(c, name)
  }

  lemma AddedLookups(c: Catalog, c': Catalog, r: RelationInfo)
    requires Added(c, c', r) && !NameTaken(c, r.name)
    ensures NewlyNamed(c, c', r)
  {
    forall name | name != r.name ensures RelationByName(c', name) == RelationByName(c, name) {
      FindNameAppend(c.relations, r, name);
    }
    FindNameAppend(c.relations, r, r.name);
    NameTakenFound(c, r.name);
  }

  lemma {:induction false} FindNameAppend(relations: seq<RelationInfo>, r: RelationInfo, name: Text)
    ensures FindName(relations + [r], name) ==
            if FindName(relations, name) < |relations| then FindName(relations, name)
            else |relations| + if r.name == name then 0 else 1
  {
    var i, j := FindName(relations, name), FindName(relations + [r], name);
    assert (relations + [r])[|relations|] == r;
    assert i < |relations| ==> (relations + [r])[i].name == name;
    assert j < |relations| ==> relations[j].name == name;
  }

  lemma TableMetadataNamed(c: Catalog, name: Text, columns: seq<ColumnDef>)
    ensures TableAllowed(c, name, columns) ==>
      NewlyNamed(c, CreateTableMetadata(c, name, columns).catalog,
                 RelationInfo(c.nextRelationId, name, Table, Heap([c.nextPageId]), columns))
  {
    hide FindName;
    TableMetadataExact(c, name, columns);
    if TableAllowed(c, name, columns) {
      AddedLookups(c, CreateTableMetadata(c, name, columns).catalog,
                   RelationInfo(c.nextRelationId, name, Table, Heap([c.nextPageId]), columns));
    }
  }

  /** Moving a root changes that index's root page and nothing else; User for an unknown id or a table. */
  lemma SetRootExact(c: Catalog, i: nat, root: PageId)
    requires i < |c.relations| && FindId(c.relations, c.relations[i].id) == i
    ensures var r := SetIndexRootPage(c, c.relations[i].id, root);
      match c.relations[i].storage
      case Heap(_) => r.Err?
      case BPlusTree(tableId, columnName, _) =>
        if c.relations[i].kind != Index then r == Err(User)
        else
          && r.Ok? && r.value.nextPageId == c.nextPageId && r.value.nextRelationId == c.nextRelationId
          && r.value.extensions == c.extensions && |r.value.relations| == |c.relations|
          && r.value.relations[i] == RelationInfo(c.relations[i].id, c.relations[i].name, Index,
                                                  BPlusTree(tableId, columnName, root), c.relations[i].columns)
          && forall j :: 0 <= j < |c.relations| && j != i ==> r.value.relations[j] == c.relations[j]
  {
  }

  /** A heap page goes at the end of that table's pages and nothing else changes. */
  lemma AppendPageExact(c: Catalog, i: nat, page: PageId)
    requires i < |c.relations| && FindId(c.relations, c.relations[i].id) == i
    ensures var r := AppendHeapPage(c, c.relations[i].id, page);
      match c.relations[i].storage
      case BPlusTree(_, _, _) => r.Err?
      case Heap(pages) =>
        if c.relations[i].kind != Table then r == Err(User)
        else
          && r.Ok? && r.value.nextPageId == c.nextPageId && r.value.nextRelationId == c.nextRelationId
          && r.value.extensions == c.extensions && |r.value.relations| == |c.relations|
          && r.value.relations[i] == RelationInfo(c.relations[i].id, c.relations[i].name, Table, Heap(pages + [page]),
                                                  c.relations[i].columns)
          && forall j :: 0 <= j < |c.relations| && j != i ==> r.value.relations[j] == c.relations[j]
  {
  }
}
