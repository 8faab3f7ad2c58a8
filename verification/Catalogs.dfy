/** The catalog object: its allocators and metadata operations change it in place. */
module Catalogs {
  import opened Core
  import opened CatalogModel

  /** Every column named and typed, and no name used twice. */
  method ValidateColumns(columns: seq<ColumnDef>) returns (r: Result<()>)
    ensures r.Ok? <==>
      && |columns| < 0x1_0000
      && (forall i :: 0 <= i < |columns| ==> 1 <= |columns[i].name| < 0x1_0000 && 1 <= |columns[i].typeName| < 0x1_0000)
      && (forall i, j :: 0 <= i < |columns| && 0 <= j < |columns| && columns[i].name == columns[j].name ==> i == j)
    ensures r == if ValidColumns(columns) then Ok(()) else Err(User)
  {
    if |columns| > U16_MAX {
      return Err(User);
    }
    for index := 0 to |columns|
      invariant forall i :: 0 <= i < index ==> ValidName(columns[i].name) && ValidName(columns[i].typeName)
      invariant forall i, j :: 0 <= i < j < index ==> columns[i].name != columns[j].name
    {
      if !ValidName(columns[index].name) || !ValidName(columns[index].typeName) {
        return Err(User);
      }
      var previous := FindColumn(columns[..index], columns[index].name);
      if previous < index {
        assert columns[..index][previous] == columns[previous];
        return Err(User);
      }
      assert forall i :: 0 <= i < index ==> columns[..index][i].name != columns[index].name;
    }
    r := Ok(());
  }

  class CatalogState {
    var nextRelationId: u64
    var nextPageId: u64
    var relations: seq<RelationInfo>
    var extensions: seq<ExtensionInfo>

    constructor (c: Catalog)
      ensures Value() == c
    {
      nextRelationId, nextPageId, relations, extensions := c.nextRelationId, c.nextPageId, c.relations, c.extensions;
    }

    function Value(): Catalog
      reads this
    {
      Catalog(nextRelationId, nextPageId, relations, extensions)
    }

    method AllocateRelationId() returns (r: Result<RelationId>)
      modifies this`nextRelationId
      ensures r == if old(nextRelationId) == U64_MAX then Err(User) else Ok(old(nextRelationId))
      ensures nextRelationId == old(nextRelationId) + if r.Ok? then 1 else 0
    {
      if nextRelationId == U64_MAX {
        return Err(User);
      }
      r := Ok(nextRelationId);
      nextRelationId := nextRelationId + 1;
    }

    method AllocatePageId() returns (r: Result<PageId>)
      modifies this`nextPageId
      ensures r == if old(nextPageId) == U64_MAX then Err(User) else Ok(old(nextPageId))
      ensures nextPageId == old(nextPageId) + if r.Ok? then 1 else 0
    {
      if nextPageId == U64_MAX {
        return Err(User);
      }
      r := Ok(nextPageId);
      nextPageId := nextPageId + 1;
    }

    /** A failure for want of a page id has used up a relation id. */
    method CreateTableMetadata(name: Text, columns: seq<ColumnDef>) returns (r: Result<(RelationId, PageId)>)
      modifies this
      ensures if TableAllowed(old(Value()), name, columns) then
          && r == Ok((old(nextRelationId), old(nextPageId)))
          && Added(old(Value()), Value(), RelationInfo(old(nextRelationId), name, Table, Heap([old(nextPageId)]), columns))
          && NewlyNamed(old(Value()), Value(), RelationInfo(old(nextRelationId), name, Table, Heap([old(nextPageId)]), columns))
        else r == Err(User) && Refused(old(Value()), Value())
      ensures Change(Value(), r) == CatalogModel.CreateTableMetadata(old(Value()), name, columns)
    {
      TableMetadataExact(Value(), name, columns);
      TableMetadataNamed(Value(), name, columns);
      if !ValidName(name) {
        return Err(User);
      }
      var valid := ValidateColumns(columns);
      if valid.Err? {
        return Err(User);
      }
      if RelationByName(Value(), name).Some? {
        return Err(User);
      }
      var relationId :- AllocateRelationId();
      var pageId :- AllocatePageId();
      relations := relations + [RelationInfo(relationId, name, Table, Heap([pageId]), columns)];
      r := Ok((relationId, pageId));
    }

    method CreateIndexMetadata(name: Text, tableId: RelationId, columnName: Text) returns (r: Result<(RelationId, PageId)>)
      modifies this
      ensures if IndexAllowed(old(Value()), name, tableId, columnName) then
          && r == Ok((old(nextRelationId), old(nextPageId)))
          && Added(old(Value()), Value(),
                   RelationInfo(old(nextRelationId), name, Index, BPlusTree(tableId, columnName, old(nextPageId)),
                                [ColumnDef(columnName, INDEX_KEY_TYPE)]))
        else r == Err(User) && Refused(old(Value()), Value())
      ensures Change(Value(), r) == CatalogModel.CreateIndexMetadata(old(Value()), name, tableId, columnName)
    {
      hide FindId, FindName, FindColumn, IndexesOn, Utf8;
      IndexMetadataExact(Value(), name, tableId, columnName);
      if !ValidName(name) || !ValidName(columnName) || RelationByName(Value(), name).Some? {
        return Err(User);
      }
      match RelationById(Value(), tableId)
      case None =>
        return Err(User);
      case Some(table) =>
        if table.kind != Table || FindColumn(table.columns, columnName) == |table.columns| {
          return Err(User);
        }
        if Indexed(Value(), tableId, columnName) {
          return Err(User);
        }
        var relationId :- AllocateRelationId();
        var rootPageId :- AllocatePageId();
        relations := relations + [RelationInfo(
          relationId, name, Index, BPlusTree(tableId, columnName, rootPageId), [ColumnDef(columnName, INDEX_KEY_TYPE)])];
        r := Ok((relationId, rootPageId));
    }

    method AppendHeapPage(relationId: RelationId, pageId: PageId) returns (r: Result<()>)
      modifies this`relations
      ensures match CatalogModel.AppendHeapPage(old(Value()), relationId, pageId)
        case Err(error) => r == Err(error) && Value() == old(Value())
        case Ok(c) => r == Ok(()) && Value() == c
    {
      var i := FindId(relations, relationId);
      if i == |relations| || relations[i].kind != Table {
        return Err(User);
      }
      match relations[i].storage
      case Heap(pages) =>
        relations := relations[i := relations[i].(storage := Heap(pages + [pageId]))];
        r := Ok(());
      case BPlusTree(_, _, _) =>
        r := Err(InternalInvariant);
    }

    method SetIndexRootPage(relationId: RelationId, rootPageId: PageId) returns (r: Result<()>)
      modifies this`relations
      ensures match CatalogModel.SetIndexRootPage(old(Value()), relationId, rootPageId)
        case Err(error) => r == Err(error) && Value() == old(Value())
        case Ok(c) => r == Ok(()) && Value() == c
    {
      var i := FindId(relations, relationId);
      if i == |relations| || relations[i].kind != Index {
        return Err(User);
      }
      match relations[i].storage
      case Heap(_) =>
        r := Err(InternalInvariant);
      case BPlusTree(tableId, columnName, _) =>
        relations := relations[i := relations[i].(storage := BPlusTree(tableId, columnName, rootPageId))];
        r := Ok(());
    }
  }
}
