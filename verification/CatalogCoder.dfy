/** The catalog record written to and read from bytes. */
module CatalogCoder {
  import opened Core
  import opened CatalogModel
  import opened Encoding
  import opened Cursors
  import opened CatalogCodec

  // Writing

  method WriteString(bytes: Bytes, t: Text) returns (r: Result<Bytes>)
    ensures r == if |t| <= U16_MAX then Ok(bytes + TextBytes(t)) else Err(User)
  {
    if |t| > U16_MAX {
      return Err(User);
    }
    assert bytes + U16Bytes(|t|) + t == bytes + TextBytes(t);
    r := Ok(bytes + U16Bytes(|t|) + t);
  }

  method EncodeStorage(bytes0: Bytes, storage: StorageObject) returns (r: Result<Bytes>)
    ensures r == if StorageFits(storage) then Ok(bytes0 + StorageBytes(storage)) else Err(User)
  {
    hide LittleEndian;
    match storage
    case Heap(pages) =>
      if |pages| >= 0x1_0000_0000 {
        return Err(User);
      }
      var bytes := EncodePageIds(bytes0 + [STORAGE_HEAP] + U32Bytes(|pages|), pages);
      assert bytes0 + [STORAGE_HEAP] + U32Bytes(|pages|) + ListBytes(PageIdBytes, pages) == bytes0 + StorageBytes(storage);
      r := Ok(bytes);
    case BPlusTree(tableId, columnName, rootPageId) =>
      r := WriteString(bytes0 + [STORAGE_INDEX] + U64Bytes(tableId) + U64Bytes(rootPageId), columnName);
      assert bytes0 + [STORAGE_INDEX] + U64Bytes(tableId) + U64Bytes(rootPageId) + TextBytes(columnName)
          == bytes0 + StorageBytes(storage);
  }

  method EncodeColumns(bytes0: Bytes, columns: seq<ColumnDef>) returns (r: Result<Bytes>)
    ensures r == if forall i :: 0 <= i < |columns| ==> ColumnFits(columns[i])
                 then Ok(bytes0 + ListBytes(ColumnBytes, columns)) else Err(User)
  {
    hide TextBytes;
    var bytes := bytes0;
    assert bytes0 + ListBytes(ColumnBytes, []) == bytes0;
    for i := 0 to |columns|
      invariant forall j :: 0 <= j < i ==> ColumnFits(columns[j])
      invariant bytes == bytes0 + ListBytes(ColumnBytes, columns[..i])
    {
      var named := WriteString(bytes, columns[i].name);
      if named.Err? {
        return named;
      }
      var typed := WriteString(named.value, columns[i].typeName);
      if typed.Err? {
        return typed;
      }
      ListBytesStep(ColumnBytes, columns, i, bytes0);
      assert bytes + TextBytes(columns[i].name) + TextBytes(columns[i].typeName) == bytes + ColumnBytes(columns[i]);
      bytes := typed.value;
    }
    assert columns[..|columns|] == columns;
    r := Ok(bytes);
  }

  method EncodeRelation(bytes: Bytes, relation: RelationInfo) returns (r: Result<Bytes>)
    ensures r == if RelationFits(relation) then Ok(bytes + RelationBytes(relation)) else Err(User)
  {
    hide LittleEndian, StorageBytes, ColumnBytes, StorageFits, ColumnFits, TextBytes, ListBytes;
    var stored := EncodeStorage(bytes + U64Bytes(relation.id) + [KindByte(relation.kind)], relation.storage);
    if stored.Err? {
      return stored;
    }
    var named := WriteString(stored.value, relation.name);
    if named.Err? {
      return named;
    }
    if |relation.columns| > U16_MAX {
      return Err(User);
    }
    r := EncodeColumns(named.value + U16Bytes(|relation.columns|), relation.columns);
    SixParts(bytes, U64Bytes(relation.id), [KindByte(relation.kind)], StorageBytes(relation.storage),
             TextBytes(relation.name), U16Bytes(|relation.columns|), ListBytes(ColumnBytes, relation.columns));
  }

  lemma SixParts(a: Bytes, b: Bytes, c: Bytes, d: Bytes, e: Bytes, f: Bytes, g: Bytes)
    ensures a + b + c + d + e + f + g == a + (b + (c + (d + (e + (f + g)))))
  {
  }

  method EncodeRelations(bytes0: Bytes, relations: seq<RelationInfo>) returns (r: Result<Bytes>)
    ensures r == if forall i :: 0 <= i < |relations| ==> RelationFits(relations[i])
                 then Ok(bytes0 + ListBytes(RelationBytes, relations)) else Err(User)
  {
    hide RelationBytes, RelationFits;
    var bytes := bytes0;
    assert bytes0 + ListBytes(RelationBytes, []) == bytes0;
    for i := 0 to |relations|
      invariant forall j :: 0 <= j < i ==> RelationFits(relations[j])
      invariant bytes == bytes0 + ListBytes(RelationBytes, relations[..i])
    {
      var written := EncodeRelation(bytes, relations[i]);
      if written.Err? {
        return written;
      }
      ListBytesStep(RelationBytes, relations, i, bytes0);
      bytes := written.value;
    }
    assert relations[..|relations|] == relations;
    r := Ok(bytes);
  }

  method EncodeExtensions(bytes0: Bytes, extensions: seq<ExtensionInfo>) returns (r: Result<Bytes>)
    ensures r == if forall i :: 0 <= i < |extensions| ==> ExtensionFits(extensions[i])
                 then Ok(bytes0 + ListBytes(ExtensionBytes, extensions)) else Err(User)
  {
    hide TextBytes, LittleEndian, Utf8;
    var bytes := bytes0;
    assert bytes0 + ListBytes(ExtensionBytes, []) == bytes0;
    for i := 0 to |extensions|
      invariant forall j :: 0 <= j < i ==> ExtensionFits(extensions[j])
      invariant bytes == bytes0 + ListBytes(ExtensionBytes, extensions[..i])
    {
      var e := extensions[i];
      var named := WriteString(bytes, e.name);
      if named.Err? {
        return named;
      }
      var kinded := WriteString(named.value + U32Bytes(e.abiVersion), e.kind);
      if kinded.Err? {
        return kinded;
      }
      ListBytesStep(ExtensionBytes, extensions, i, bytes0);
      assert bytes + TextBytes(e.name) + U32Bytes(e.abiVersion) + TextBytes(e.kind) == bytes + ExtensionBytes(e);
      bytes := kinded.value;
    }
    assert extensions[..|extensions|] == extensions;
    r := Ok(bytes);
  }

  method EncodeCatalog(c: Catalog) returns (r: Result<Bytes>)
    ensures r == if Encodable(c) then Ok(CatalogBytes(c)) else Err(User)
  {
    hide LittleEndian, RelationBytes, ExtensionBytes, RelationFits, ExtensionFits, ListBytes;
    if |c.relations| >= 0x1_0000_0000 {
      return Err(User);
    }
    var head := CATALOG_MAGIC + U16Bytes(CATALOG_VERSION) + U64Bytes(c.nextRelationId) + U64Bytes(c.nextPageId)
      + U32Bytes(|c.relations|);
    var related := EncodeRelations(head, c.relations);
    if related.Err? {
      return related;
    }
    FiveParts(CATALOG_MAGIC, U16Bytes(CATALOG_VERSION), U64Bytes(c.nextRelationId), U64Bytes(c.nextPageId),
              U32Bytes(|c.relations|), ListBytes(RelationBytes, c.relations));
    if |c.extensions| >= 0x1_0000_0000 {
      return Err(User);
    }
    r := EncodeExtensions(related.value + U32Bytes(|c.extensions|), c.extensions);
    assert CoreBytes(c) + U32Bytes(|c.extensions|) + ListBytes(ExtensionBytes, c.extensions) == CatalogBytes(c);
  }

  lemma FiveParts(a: Bytes, b: Bytes, c: Bytes, d: Bytes, e: Bytes, f: Bytes)
    ensures a + b + c + d + e + f == a + (b + (c + (d + (e + f))))
  {
  }

  // Reading

  method DecodeStorage(cursor: DecodeCursor) returns (r: Result<StorageObject>)
    requires cursor.Valid()
    modifies cursor
    ensures cursor.Valid() && Reading(ParseStorage(old(cursor.Rest())), r, cursor.Rest())
  {
    hide ParseU64, ParseText, FromLittleEndian;
    var kind :- cursor.ReadU8();
    if kind == STORAGE_HEAP {
      var count :- cursor.ReadInt(4);
      var pages :- DecodePageIds(cursor, count);
      r := if pages == [] then Err(Corruption) else Ok(Heap(pages));
    } else if kind == STORAGE_INDEX {
      var tableId :- cursor.ReadU64();
      var rootPageId :- cursor.ReadU64();
      var columnName :- cursor.ReadString();
      r := Ok(BPlusTree(tableId, columnName, rootPageId));
    } else {
      r := Err(Corruption);
    }
  }

  method DecodeColumn(cursor: DecodeCursor) returns (r: Result<ColumnDef>)
    requires cursor.Valid()
    modifies cursor
    ensures cursor.Valid() && Reading(ParseColumn(old(cursor.Rest())), r, cursor.Rest())
  {
    hide ParseText;
    var name :- cursor.ReadString();
    var typeName :- cursor.ReadString();
    r := Ok(ColumnDef(name, typeName));
  }

  method DecodeColumns(cursor: DecodeCursor, count: nat) returns (r: Result<seq<ColumnDef>>)
    requires cursor.Valid()
    modifies cursor
    ensures cursor.Valid() && Reading(ParseList(ParseColumn, old(cursor.Rest()), count), r, cursor.Rest())
  {
    hide ParseColumn;
    ghost var start := cursor.Rest();
    var columns: seq<ColumnDef> := [];
    ContinuedFrom(ParseColumn, start, count);
    for i := 0 to count
      invariant cursor.Valid()
      invariant ParseList(ParseColumn, start, count) == Continued(ParseColumn, columns, cursor.Rest(), count - i)
    {
      ContinuedStep(ParseColumn, columns, cursor.Rest(), count - i);
      var column :- DecodeColumn(cursor);
      columns := columns + [column];
    }
    assert columns + [] == columns;
    r := Ok(columns);
  }

  method DecodeNaming(cursor: DecodeCursor) returns (r: Result<(Text, seq<ColumnDef>)>)
    requires cursor.Valid()
    modifies cursor
    ensures cursor.Valid() && Reading(ParseNaming(old(cursor.Rest())), r, cursor.Rest())
  {
    hide ParseText, ParseColumn, FromLittleEndian;
    var name :- cursor.ReadString();
    var count :- cursor.ReadInt(2);
    var columns :- DecodeColumns(cursor, count);
    r := Ok((name, columns));
  }

  method DecodeRelation(cursor: DecodeCursor) returns (r: Result<RelationInfo>)
    requires cursor.Valid()
    modifies cursor
    ensures cursor.Valid() && Reading(ParseRelation(old(cursor.Rest())), r, cursor.Rest())
  {
    hide ParseU64, ParseStorage, ParseNaming;
    var id :- cursor.ReadU64();
    var kindByte :- cursor.ReadU8();
    var kind := ParseKind(kindByte);
    if kind.None? {
      return Err(Corruption);
    }
    var storage :- DecodeStorage(cursor);
    var naming :- DecodeNaming(cursor);
    r := Ok(RelationInfo(id, naming.0, kind.value, storage, naming.1));
  }

  method DecodeRelations(cursor: DecodeCursor, count: nat) returns (r: Result<seq<RelationInfo>>)
    requires cursor.Valid()
    modifies cursor
    ensures cursor.Valid() && Reading(ParseList(ParseRelation, old(cursor.Rest()), count), r, cursor.Rest())
  {
    hide ParseRelation;
    ghost var start := cursor.Rest();
    var relations: seq<RelationInfo> := [];
    ContinuedFrom(ParseRelation, start, count);
    for i := 0 to count
      invariant cursor.Valid()
      invariant ParseList(ParseRelation, start, count) == Continued(ParseRelation, relations, cursor.Rest(), count - i)
    {
      ContinuedStep(ParseRelation, relations, cursor.Rest(), count - i);
      var relation :- DecodeRelation(cursor);
      relations := relations + [relation];
    }
    assert relations + [] == relations;
    r := Ok(relations);
  }

  method DecodeExtension(cursor: DecodeCursor) returns (r: Result<ExtensionInfo>)
    requires cursor.Valid()
    modifies cursor
    ensures cursor.Valid() && Reading(ParseExtension(old(cursor.Rest())), r, cursor.Rest())
  {
    hide ParseText, FromLittleEndian;
    PowersOf256();
    var name :- cursor.ReadString();
    var abiVersion :- cursor.ReadInt(4);
    var kind :- cursor.ReadString();
    r := Ok(ExtensionInfo(name, abiVersion, kind));
  }

  /** Older files end before the extension count. */
  method DecodeExtensions(cursor: DecodeCursor) returns (r: Result<seq<ExtensionInfo>>)
    requires cursor.Valid()
    modifies cursor
    ensures cursor.Valid() && Reading(ParseExtensionList(old(cursor.Rest())), r, cursor.Rest())
  {
    hide ParseExtension, FromLittleEndian;
    var finished := cursor.IsFinished();
    if finished {
      return Ok([]);
    }
    var count :- cursor.ReadInt(4);
    ghost var start := cursor.Rest();
    var extensions: seq<ExtensionInfo> := [];
    ContinuedFrom(ParseExtension, start, count);
    for i := 0 to count
      invariant cursor.Valid()
      invariant ParseList(ParseExtension, start, count) == Continued(ParseExtension, extensions, cursor.Rest(), count - i)
    {
      ContinuedStep(ParseExtension, extensions, cursor.Rest(), count - i);
      var extension :- DecodeExtension(cursor);
      extensions := extensions + [extension];
    }
    assert extensions + [] == extensions;
    r := Ok(extensions);
  }

  method DecodeHeader(cursor: DecodeCursor) returns (r: Result<()>)
    requires cursor.Valid()
    modifies cursor
    ensures cursor.Valid() && Reading(ParseHeader(old(cursor.Rest())), r, cursor.Rest())
  {
    var magic :- cursor.ReadBytes(4);
    if magic != CATALOG_MAGIC {
      return Err(Corruption);
    }
    var version :- cursor.ReadInt(2);
    r := if version != CATALOG_VERSION then Err(Corruption) else Ok(());
  }

  method DecodeBody(cursor: DecodeCursor) returns (r: Result<Catalog>)
    requires cursor.Valid()
    modifies cursor
    ensures cursor.Valid() && Reading(ParseBody(old(cursor.Rest())), r, cursor.Rest())
  {
    hide ParseU64, ParseRelation, ParseExtensionList, FromLittleEndian;
    var nextRelationId :- cursor.ReadU64();
    var nextPageId :- cursor.ReadU64();
    var count :- cursor.ReadInt(4);
    var relations :- DecodeRelations(cursor, count);
    var extensions :- DecodeExtensions(cursor);
    r := Ok(Catalog(nextRelationId, nextPageId, relations, extensions));
  }

  /** Header, body, and nothing after. */
  method DecodeWhole(cursor: DecodeCursor) returns (r: Result<Catalog>)
    requires cursor.Valid()
    modifies cursor
    ensures r == match ParseCatalog(old(cursor.Rest())) case None => Err(Corruption) case Some(x) => Ok(x)
  {
    hide ParseHeader, ParseBody, Utf8;
    var header := DecodeHeader(cursor);
    match header
    case Err(error) =>
      r := Err(error);
    case Ok(_) =>
      r := DecodeBody(cursor);
      if r.Ok? {
        var finished := cursor.IsFinished();
        r := if finished then r else Err(Corruption);
      }
  }

  method DecodeCatalog(bytes: Bytes) returns (r: Result<Catalog>)
    ensures r == match ParseCatalog(bytes) case None => Err(Corruption) case Some(x) => Ok(x)
  {
    hide ParseCatalog;
    var cursor := new DecodeCursor(bytes);
    r := DecodeWhole(cursor);
  }
}
