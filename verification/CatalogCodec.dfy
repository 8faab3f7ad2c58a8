/** The bytes of the catalog record. */
module CatalogCodec {
  import opened Core
  import opened CatalogModel
  import opened Encoding

  const CATALOG_MAGIC: Bytes := [0x52, 0x44, 0x42, 0x43] // "RDBC"
  const CATALOG_VERSION: u16 := 1
  const STORAGE_HEAP: u8 := 1
  const STORAGE_INDEX: u8 := 2

  // Encoding

  function KindByte(k: RelationKind): u8 {
    match k
    case Table => 1
    case Index => 2
    case System => 3
  }

  function StorageBytes(s: StorageObject): Bytes {
    match s
    case Heap(pages) => [STORAGE_HEAP] + (U32Bytes(|pages|) + ListBytes(PageIdBytes, pages))
    case BPlusTree(tableId, columnName, rootPageId) =>
      [STORAGE_INDEX] + (U64Bytes(tableId) + (U64Bytes(rootPageId) + TextBytes(columnName)))
  }

  function ColumnBytes(c: ColumnDef): Bytes {
    TextBytes(c.name) + TextBytes(c.typeName)
  }

  function NamingBytes(name: Text, columns: seq<ColumnDef>): Bytes {
    TextBytes(name) + (U16Bytes(|columns|) + ListBytes(ColumnBytes, columns))
  }

  function RelationBytes(r: RelationInfo): Bytes {
    U64Bytes(r.id) + ([KindByte(r.kind)] + (StorageBytes(r.storage) + NamingBytes(r.name, r.columns)))
  }

  function ExtensionBytes(e: ExtensionInfo): Bytes {
    TextBytes(e.name) + (U32Bytes(e.abiVersion) + TextBytes(e.kind))
  }

  /** Everything up to the extension count, which older files lack. */
  function CoreBytes(c: Catalog): Bytes {
    CATALOG_MAGIC + (U16Bytes(CATALOG_VERSION) + (U64Bytes(c.nextRelationId) + (U64Bytes(c.nextPageId)
      + (U32Bytes(|c.relations|) + ListBytes(RelationBytes, c.relations)))))
  }

  function CatalogBytes(c: Catalog): Bytes {
    CoreBytes(c) + (U32Bytes(|c.extensions|) + ListBytes(ExtensionBytes, c.extensions))
  }

  // Lengths fit the fields that store them

  predicate StorageFits(s: StorageObject) {
    match s
    case Heap(pages) => |pages| < 0x1_0000_0000
    case BPlusTree(_, columnName, _) => |columnName| <= U16_MAX
  }

  predicate ColumnFits(c: ColumnDef) {
    |c.name| <= U16_MAX && |c.typeName| <= U16_MAX
  }

  predicate RelationFits(r: RelationInfo) {
    && StorageFits(r.storage) && |r.name| <= U16_MAX && |r.columns| <= U16_MAX
    && (forall i :: 0 <= i < |r.columns| ==> ColumnFits(r.columns[i]))
  }

  predicate ExtensionFits(e: ExtensionInfo) {
    |e.name| <= U16_MAX && |e.kind| <= U16_MAX
  }

  predicate Encodable(c: Catalog) {
    && |c.relations| < 0x1_0000_0000 && |c.extensions| < 0x1_0000_0000
    && (forall i :: 0 <= i < |c.relations| ==> RelationFits(c.relations[i]))
    && (forall i :: 0 <= i < |c.extensions| ==> ExtensionFits(c.extensions[i]))
  }

  /** A heap owns a page from the moment it is created. */
  predicate HeapsHavePages(c: Catalog) {
    forall i :: 0 <= i < |c.relations| ==> c.relations[i].storage.Heap? ==> c.relations[i].storage.pages != []
  }

  // Parsing

  function ParseKind(x: u8): Option<RelationKind> {
    if x == 1 then Some(Table) else if x == 2 then Some(Index) else if x == 3 then Some(System) else None
  }

  function ParseStorage(b: Bytes): Option<Parsed<StorageObject>> {
    if b == [] then None
    else if b[0] == STORAGE_HEAP then
      var n :- TakeInt(b[1..], 4);
      var pages :- ParseList(ParseU64, n.rest, n.value);
      if pages.value == [] then None else Some(Parsed(Heap(pages.value), pages.rest))
    else if b[0] == STORAGE_INDEX then
      var tableId :- ParseU64(b[1..]);
      var root :- ParseU64(tableId.rest);
      var column :- ParseText(root.rest);
      Some(Parsed(BPlusTree(tableId.value, column.value, root.value), column.rest))
    else None
  }

  function ParseColumn(b: Bytes): Option<Parsed<ColumnDef>> {
    var name :- ParseText(b);
    var typeName :- ParseText(name.rest);
    Some(Parsed(ColumnDef(name.value, typeName.value), typeName.rest))
  }

  /** Name and columns. */
  function ParseNaming(b: Bytes): Option<Parsed<(Text, seq<ColumnDef>)>> {
    var name :- ParseText(b);
    var n :- TakeInt(name.rest, 2);
    var columns :- ParseList(ParseColumn, n.rest, n.value);
    Some(Parsed((name.value, columns.value), columns.rest))
  }

  function ParseRelation(b: Bytes): Option<Parsed<RelationInfo>> {
    ParseRelationWith(ParseU64, ParseStorage, ParseNaming, b)
  }

  function ParseRelationWith(
      parseId: Parser<u64>, parseStorage: Parser<StorageObject>, parseNaming: Parser<(Text, seq<ColumnDef>)>, b: Bytes)
    : Option<Parsed<RelationInfo>>
  {
    var id :- parseId(b);
    if id.rest == [] then None else
      var kind :- ParseKind(id.rest[0]);
      var storage :- parseStorage(id.rest[1..]);
      var naming :- parseNaming(storage.rest);
      Some(Parsed(RelationInfo(id.value, naming.value.0, kind, storage.value, naming.value.1), naming.rest))
  }

  function ParseExtension(b: Bytes): Option<Parsed<ExtensionInfo>> {
    var name :- ParseText(b);
    var abi :- TakeInt(name.rest, 4);
    var kind :- ParseText(abi.rest);
    PowersOf256();
    Some(Parsed(ExtensionInfo(name.value, abi.value, kind.value), kind.rest))
  }

  function ParseExtensionList(b: Bytes): Option<Parsed<seq<ExtensionInfo>>> {
    if b == [] then Some(Parsed([], b))
    else
      var n :- TakeInt(b, 4);
      ParseList(ParseExtension, n.rest, n.value)
  }

  function ParseHeader(b: Bytes): Option<Parsed<()>> {
    var magic :- TakeBytes(b, 4);
    var version :- TakeInt(magic.rest, 2);
    if magic.value != CATALOG_MAGIC || version.value != CATALOG_VERSION then None else Some(Parsed((), version.rest))
  }

  function ParseBody(b: Bytes): Option<Parsed<Catalog>> {
    var nextRelationId :- ParseU64(b);
    var nextPageId :- ParseU64(nextRelationId.rest);
    var n :- TakeInt(nextPageId.rest, 4);
    var relations :- ParseList(ParseRelation, n.rest, n.value);
    var extensions :- ParseExtensionList(relations.rest);
    Some(Parsed(Catalog(nextRelationId.value, nextPageId.value, relations.value, extensions.value), extensions.rest))
  }

  function ParseCatalog(b: Bytes): Option<Catalog> {
    var header :- ParseHeader(b);
    var catalog :- ParseBody(header.rest);
    if catalog.rest == [] then Some(catalog.value) else None
  }

  // Round trips

  lemma ParseHeapRoundTrip(pages: seq<PageId>, rest: Bytes)
    requires 0 < |pages| < 0x1_0000_0000
    ensures ParseStorage(StorageBytes(Heap(pages)) + rest) == Some(Parsed(Heap(pages), rest))
  {
    PowersOf256();
    var tail := ListBytes(PageIdBytes, pages) + rest;
    Untag(STORAGE_HEAP, U32Bytes(|pages|), ListBytes(PageIdBytes, pages), rest);
    TakeIntRoundTrip(|pages|, 4, tail);
    ParsePageIdsRoundTrip(pages, rest);
  }

  lemma ParseIndexRoundTrip(tableId: RelationId, columnName: Text, rootPageId: PageId, rest: Bytes)
    requires |columnName| <= U16_MAX
    ensures var s := BPlusTree(tableId, columnName, rootPageId);
      ParseStorage(StorageBytes(s) + rest) == Some(Parsed(s, rest))
  {
    var tail := TextBytes(columnName) + rest;
    Untag(STORAGE_INDEX, U64Bytes(tableId), U64Bytes(rootPageId) + TextBytes(columnName), rest);
    assert (U64Bytes(rootPageId) + TextBytes(columnName)) + rest == U64Bytes(rootPageId) + tail;
    ParseU64RoundTrip(tableId, U64Bytes(rootPageId) + tail);
    ParseU64RoundTrip(rootPageId, tail);
    ParseTextRoundTrip(columnName, rest);
  }

  lemma ParseStorageRoundTrip(s: StorageObject, rest: Bytes)
    requires StorageFits(s) && (s.Heap? ==> s.pages != [])
    ensures ParseStorage(StorageBytes(s) + rest) == Some(Parsed(s, rest))
  {
    match s
    case Heap(pages) => ParseHeapRoundTrip(pages, rest);
    case BPlusTree(tableId, columnName, rootPageId) => ParseIndexRoundTrip(tableId, columnName, rootPageId, rest);
  }

  lemma ParseColumnRoundTrip(c: ColumnDef, rest: Bytes)
    requires ColumnFits(c)
    ensures ParseColumn(ColumnBytes(c) + rest) == Some(Parsed(c, rest))
  {
    assert ColumnBytes(c) + rest == TextBytes(c.name) + (TextBytes(c.typeName) + rest);
    ParseTextRoundTrip(c.name, TextBytes(c.typeName) + rest);
    ParseTextRoundTrip(c.typeName, rest);
  }

  lemma ParseColumnsRoundTrip(cs: seq<ColumnDef>, rest: Bytes)
    requires forall i :: 0 <= i < |cs| ==> ColumnFits(cs[i])
    ensures ParseList(ParseColumn, ListBytes(ColumnBytes, cs) + rest, |cs|) == Some(Parsed(cs, rest))
  {
    forall i | 0 <= i < |cs| ensures Reads(ParseColumn, ColumnBytes, cs[i]) {
      forall rest: Bytes ensures ParseColumn(ColumnBytes(cs[i]) + rest) == Some(Parsed(cs[i], rest)) {
        ParseColumnRoundTrip(cs[i], rest);
      }
    }
    ListRoundTrip(ParseColumn, ColumnBytes, cs, rest);
  }

  lemma ParseNamingRoundTrip(name: Text, columns: seq<ColumnDef>, rest: Bytes)
    requires |name| <= U16_MAX && |columns| <= U16_MAX
    requires forall i :: 0 <= i < |columns| ==> ColumnFits(columns[i])
    ensures ParseNaming(NamingBytes(name, columns) + rest) == Some(Parsed((name, columns), rest))
  {
    PowersOf256();
    var tail := ListBytes(ColumnBytes, columns) + rest;
    assert NamingBytes(name, columns) + rest == TextBytes(name) + (U16Bytes(|columns|) + tail);
    ParseTextRoundTrip(name, U16Bytes(|columns|) + tail);
    TakeIntRoundTrip(|columns|, 2, tail);
    ParseColumnsRoundTrip(columns, rest);
  }

  lemma ParseRelationParts(
      parseId: Parser<u64>, parseStorage: Parser<StorageObject>, parseNaming: Parser<(Text, seq<ColumnDef>)>,
      r: RelationInfo, b: Bytes, afterKind: Bytes, afterStorage: Bytes, rest: Bytes)
    requires parseId(b) == Some(Parsed(r.id, [KindByte(r.kind)] + afterKind))
    requires parseStorage(afterKind) == Some(Parsed(r.storage, afterStorage))
    requires parseNaming(afterStorage) == Some(Parsed((r.name, r.columns), rest))
    ensures ParseRelationWith(parseId, parseStorage, parseNaming, b) == Some(Parsed(r, rest))
  {
    assert ([KindByte(r.kind)] + afterKind)[1..] == afterKind;
  }

  lemma ParseRelationRoundTrip(r: RelationInfo, rest: Bytes)
    requires RelationFits(r) && (r.storage.Heap? ==> r.storage.pages != [])
    ensures ParseRelation(RelationBytes(r) + rest) == Some(Parsed(r, rest))
  {
    var naming := NamingBytes(r.name, r.columns) + rest;
    var storage := StorageBytes(r.storage) + naming;
    Regroup(U64Bytes(r.id), [KindByte(r.kind)], StorageBytes(r.storage), NamingBytes(r.name, r.columns), rest);
    ParseU64RoundTrip(r.id, [KindByte(r.kind)] + storage);
    ParseStorageRoundTrip(r.storage, naming);
    ParseNamingRoundTrip(r.name, r.columns, rest);
    ParseRelationParts(ParseU64, ParseStorage, ParseNaming, r, RelationBytes(r) + rest, storage, naming, rest);
  }

  lemma ParseRelationsRoundTrip(rs: seq<RelationInfo>, rest: Bytes)
    requires forall i :: 0 <= i < |rs| ==> RelationFits(rs[i]) && (rs[i].storage.Heap? ==> rs[i].storage.pages != [])
    ensures ParseList(ParseRelation, ListBytes(RelationBytes, rs) + rest, |rs|) == Some(Parsed(rs, rest))
  {
    forall i | 0 <= i < |rs| ensures Reads(ParseRelation, RelationBytes, rs[i]) {
      forall rest: Bytes ensures ParseRelation(RelationBytes(rs[i]) + rest) == Some(Parsed(rs[i], rest)) {
        ParseRelationRoundTrip(rs[i], rest);
      }
    }
    ListRoundTrip(ParseRelation, RelationBytes, rs, rest);
  }

  lemma ParseExtensionRoundTrip(e: ExtensionInfo, rest: Bytes)
    requires ExtensionFits(e)
    ensures ParseExtension(ExtensionBytes(e) + rest) == Some(Parsed(e, rest))
  {
    PowersOf256();
    var tail := U32Bytes(e.abiVersion) + (TextBytes(e.kind) + rest);
    assert ExtensionBytes(e) + rest == TextBytes(e.name) + tail;
    ParseTextRoundTrip(e.name, tail);
    TakeIntRoundTrip(e.abiVersion, 4, TextBytes(e.kind) + rest);
    ParseTextRoundTrip(e.kind, rest);
  }

  lemma ParseExtensionsRoundTrip(es: seq<ExtensionInfo>, rest: Bytes)
    requires forall i :: 0 <= i < |es| ==> ExtensionFits(es[i])
    ensures ParseList(ParseExtension, ListBytes(ExtensionBytes, es) + rest, |es|) == Some(Parsed(es, rest))
  {
    forall i | 0 <= i < |es| ensures Reads(ParseExtension, ExtensionBytes, es[i]) {
      forall rest: Bytes ensures ParseExtension(ExtensionBytes(es[i]) + rest) == Some(Parsed(es[i], rest)) {
        ParseExtensionRoundTrip(es[i], rest);
      }
    }
    ListRoundTrip(ParseExtension, ExtensionBytes, es, rest);
  }

  lemma ParseCoreRoundTrip(c: Catalog, rest: Bytes)
    requires Encodable(c) && HeapsHavePages(c)
    ensures ParseCatalog(CoreBytes(c) + rest) ==
            match ParseExtensionList(rest)
            case None => None
            case Some(es) => if es.rest == [] then Some(c.(extensions := es.value)) else None
  {
    PowersOf256();
    var tail5 := ListBytes(RelationBytes, c.relations) + rest;
    var tail4 := U32Bytes(|c.relations|) + tail5;
    var tail3 := U64Bytes(c.nextPageId) + tail4;
    var tail2 := U64Bytes(c.nextRelationId) + tail3;
    var tail1 := U16Bytes(CATALOG_VERSION) + tail2;
    assert CoreBytes(c) + rest == CATALOG_MAGIC + tail1;
    TakeBytesRoundTrip(CATALOG_MAGIC, tail1);
    TakeIntRoundTrip(CATALOG_VERSION, 2, tail2);
    ParseU64RoundTrip(c.nextRelationId, tail3);
    ParseU64RoundTrip(c.nextPageId, tail4);
    TakeIntRoundTrip(|c.relations|, 4, tail5);
    ParseRelationsRoundTrip(c.relations, rest);
  }

  /** Decoding an encoded catalog gives it back. */
  lemma CatalogRoundTrip(c: Catalog)
    requires Encodable(c) && HeapsHavePages(c)
    ensures ParseCatalog(CatalogBytes(c)) == Some(c)
  {
    PowersOf256();
    var rest := U32Bytes(|c.extensions|) + ListBytes(ExtensionBytes, c.extensions);
    ParseCoreRoundTrip(c, rest);
    TakeIntRoundTrip(|c.extensions|, 4, ListBytes(ExtensionBytes, c.extensions));
    ParseExtensionsRoundTrip(c.extensions, []);
    assert ListBytes(ExtensionBytes, c.extensions) + [] == ListBytes(ExtensionBytes, c.extensions);
  }

  /** A catalog without extensions also decodes from a file that lacks the extension count. */
  lemma OldCatalogRoundTrip(c: Catalog)
    requires Encodable(c) && HeapsHavePages(c) && c.extensions == []
    ensures ParseCatalog(CoreBytes(c)) == Some(c)
  {
    ParseCoreRoundTrip(c, []);
    assert CoreBytes(c) + [] == CoreBytes(c);
  }

  // Exactness

  lemma ParseHeapExact(b: Bytes)
    requires b != [] && b[0] == STORAGE_HEAP && ParseStorage(b).Some?
    ensures var p := ParseStorage(b).value; b == StorageBytes(p.value) + p.rest && StorageFits(p.value) && p.value.pages != []
  {
    hide ParseU64, PageIdBytes, LittleEndian, FromLittleEndian, ListBytes, Utf8;
    PowersOf256();
    var n := TakeInt(b[1..], 4).value;
    TakeIntExact(b[1..], 4);
    ParsePageIdsExact(n.rest, n.value);
    var p := ParseList(ParseU64, n.rest, n.value).value;
    assert b == [b[0]] + b[1..];
    Untag(STORAGE_HEAP, U32Bytes(n.value), ListBytes(PageIdBytes, p.value), p.rest);
    assert U32Bytes(n.value) + (ListBytes(PageIdBytes, p.value) + p.rest) == b[1..];
  }

  lemma ParseTreeExact(b: Bytes)
    requires b != [] && b[0] == STORAGE_INDEX && ParseStorage(b).Some?
    ensures var p := ParseStorage(b).value; p.value.BPlusTree? && b == StorageBytes(p.value) + p.rest && StorageFits(p.value)
  {
    hide LittleEndian, FromLittleEndian, ParseText, TextBytes, ParseList, Utf8;
    PowersOf256();
    var tableId := ParseU64(b[1..]).value;
    TakeIntExact(b[1..], 8);
    var root := ParseU64(tableId.rest).value;
    TakeIntExact(tableId.rest, 8);
    ParseTextExact(root.rest);
    var column := ParseText(root.rest).value;
    assert b == [b[0]] + b[1..];
    Regroup([STORAGE_INDEX], U64Bytes(tableId.value), U64Bytes(root.value), TextBytes(column.value), column.rest);
  }

  lemma ParseStorageExact(b: Bytes)
    requires ParseStorage(b).Some?
    ensures var p := ParseStorage(b).value;
      b == StorageBytes(p.value) + p.rest && StorageFits(p.value) && (p.value.Heap? ==> p.value.pages != [])
  {
    hide StorageBytes, ParseU64, ParseText, ParseList, TakeInt, Utf8;
    if b[0] == STORAGE_HEAP {
      ParseHeapExact(b);
    } else {
      ParseTreeExact(b);
    }
  }

  lemma ParseColumnExact(b: Bytes)
    requires ParseColumn(b).Some?
    ensures var p := ParseColumn(b).value; b == ColumnBytes(p.value) + p.rest && ColumnFits(p.value)
  {
    hide ParseText, TextBytes, Utf8;
    ParseTextExact(b);
    ParseTextExact(ParseText(b).value.rest);
  }

  lemma {:induction false} ParseColumnsExact(b: Bytes, n: nat)
    requires ParseList(ParseColumn, b, n).Some?
    ensures var p := ParseList(ParseColumn, b, n).value;
      b == ListBytes(ColumnBytes, p.value) + p.rest && forall i :: 0 <= i < n ==> ColumnFits(p.value[i])
    decreases n
  {
    hide ParseColumn, ColumnBytes, ColumnFits, Utf8;
    if n > 0 {
      ParseColumnExact(b);
      ParseColumnsExact(ParseColumn(b).value.rest, n - 1);
    }
  }

  lemma ParseNamingExact(b: Bytes)
    requires ParseNaming(b).Some?
    ensures var p := ParseNaming(b).value;
      && b == NamingBytes(p.value.0, p.value.1) + p.rest && |p.value.0| <= U16_MAX && |p.value.1| <= U16_MAX
      && forall i :: 0 <= i < |p.value.1| ==> ColumnFits(p.value.1[i])
  {
    hide ParseText, TextBytes, ParseColumn, ColumnBytes, ColumnFits, ListBytes, LittleEndian, FromLittleEndian, ParseList, Utf8;
    PowersOf256();
    ParseTextExact(b);
    var name := ParseText(b).value;
    TakeIntExact(name.rest, 2);
    var n := TakeInt(name.rest, 2).value;
    ParseColumnsExact(n.rest, n.value);
  }

  lemma ParseRelationExact(b: Bytes)
    requires ParseRelation(b).Some?
    ensures var p := ParseRelation(b).value;
      && b == RelationBytes(p.value) + p.rest
      && RelationFits(p.value) && (p.value.storage.Heap? ==> p.value.storage.pages != [])
  {
    hide ParseStorage, StorageBytes, StorageFits, ParseNaming, NamingBytes, ColumnFits, LittleEndian, FromLittleEndian, Utf8;
    TakeIntExact(b, 8);
    var id := ParseU64(b).value;
    ParseStorageExact(id.rest[1..]);
    var storage := ParseStorage(id.rest[1..]).value;
    ParseNamingExact(storage.rest);
    var naming := ParseNaming(storage.rest).value;
    assert id.rest == [id.rest[0]] + id.rest[1..];
    var r := ParseRelation(b).value.value;
    Regroup(U64Bytes(r.id), [KindByte(r.kind)], StorageBytes(r.storage), NamingBytes(r.name, r.columns), naming.rest);
  }

  lemma {:induction false} ParseRelationsExact(b: Bytes, n: nat)
    requires ParseList(ParseRelation, b, n).Some?
    ensures var p := ParseList(ParseRelation, b, n).value;
      && b == ListBytes(RelationBytes, p.value) + p.rest
      && forall i :: 0 <= i < n ==>
        RelationFits(p.value[i]) && (p.value[i].storage.Heap? ==> p.value[i].storage.pages != [])
    decreases n
  {
    hide ParseRelation, RelationBytes, RelationFits, Utf8;
    if n > 0 {
      ParseRelationExact(b);
      ParseRelationsExact(ParseRelation(b).value.rest, n - 1);
    }
  }

  lemma ParseExtensionExact(b: Bytes)
    requires ParseExtension(b).Some?
    ensures var p := ParseExtension(b).value; b == ExtensionBytes(p.value) + p.rest && ExtensionFits(p.value)
  {
    hide ParseText, TextBytes, LittleEndian, FromLittleEndian, Utf8;
    ParseTextExact(b);
    var name := ParseText(b).value;
    TakeIntExact(name.rest, 4);
    ParseTextExact(TakeInt(name.rest, 4).value.rest);
  }

  lemma {:induction false} ParseExtensionsExact(b: Bytes, n: nat)
    requires ParseList(ParseExtension, b, n).Some?
    ensures var p := ParseList(ParseExtension, b, n).value;
      b == ListBytes(ExtensionBytes, p.value) + p.rest && forall i :: 0 <= i < n ==> ExtensionFits(p.value[i])
    decreases n
  {
    hide ParseExtension, ExtensionBytes, ExtensionFits, Utf8;
    if n > 0 {
      ParseExtensionExact(b);
      ParseExtensionsExact(ParseExtension(b).value.rest, n - 1);
    }
  }

  /** The relations and counters are read exactly; what follows them is left to the extension list. */
  lemma ParseCoreExact(b: Bytes) returns (rest: Bytes)
    requires ParseCatalog(b).Some?
    ensures var c := ParseCatalog(b).value;
      && b == CoreBytes(c) + rest && HeapsHavePages(c)
      && |c.relations| < 0x1_0000_0000 && (forall i :: 0 <= i < |c.relations| ==> RelationFits(c.relations[i]))
      && ParseExtensionList(rest) == Some(Parsed(c.extensions, []))
  {
    hide ParseRelation, RelationBytes, RelationFits, ParseExtensionList, ListBytes, LittleEndian, FromLittleEndian, Utf8;
    PowersOf256();
    TakeIntExact(b[4..], 2);
    var b1 := b[4..][2..];
    TakeIntExact(b1, 8);
    var b2 := ParseU64(b1).value.rest;
    TakeIntExact(b2, 8);
    var b3 := ParseU64(b2).value.rest;
    TakeIntExact(b3, 4);
    var n := TakeInt(b3, 4).value;
    ParseRelationsExact(n.rest, n.value);
    var relations := ParseList(ParseRelation, n.rest, n.value).value;
    rest := relations.rest;
    assert b == CATALOG_MAGIC + b[4..];
    CoreParts(CATALOG_MAGIC, U16Bytes(CATALOG_VERSION), U64Bytes(ParseU64(b1).value.value), U64Bytes(ParseU64(b2).value.value),
             U32Bytes(n.value), ListBytes(RelationBytes, relations.value), rest);
  }

  lemma CoreParts(a: Bytes, b: Bytes, c: Bytes, d: Bytes, e: Bytes, f: Bytes, rest: Bytes)
    ensures a + (b + (c + (d + (e + f)))) + rest == a + (b + (c + (d + (e + (f + rest)))))
  {
  }

  /** Bytes that decode are the encoding of their catalog, or of one without extensions and short of their count. */
  lemma CatalogExact(b: Bytes)
    requires ParseCatalog(b).Some?
    ensures var c := ParseCatalog(b).value;
      Encodable(c) && HeapsHavePages(c) && (CatalogBytes(c) == b || (c.extensions == [] && CoreBytes(c) == b))
  {
    hide CoreBytes, ParseCatalog, RelationFits, ParseExtension, ExtensionBytes, ExtensionFits, ListBytes, LittleEndian,
      FromLittleEndian, Utf8;
    PowersOf256();
    var c := ParseCatalog(b).value;
    var rest := ParseCoreExact(b);
    if rest == [] {
      assert CoreBytes(c) + [] == CoreBytes(c);
    } else {
      TakeIntExact(rest, 4);
      var n := TakeInt(rest, 4).value;
      ParseExtensionsExact(n.rest, n.value);
      assert ListBytes(ExtensionBytes, c.extensions) + [] == ListBytes(ExtensionBytes, c.extensions);
    }
  }

  /** A catalog of heaps with pages encodes exactly when its bytes would decode to it. */
  lemma EncodesWhatDecodes(c: Catalog)
    ensures Encodable(c) && HeapsHavePages(c) <==> ParseCatalog(CatalogBytes(c)) == Some(c)
  {
    hide ParseCatalog, CatalogBytes, CoreBytes, Encodable;
    if Encodable(c) && HeapsHavePages(c) {
      CatalogRoundTrip(c);
    } else if ParseCatalog(CatalogBytes(c)).Some? {
      CatalogExact(CatalogBytes(c));
    }
  }

  // Closed-form length

  function ColumnsLen(columns: seq<ColumnDef>): nat {
    if columns == [] then 0 else 4 + |columns[0].name| + |columns[0].typeName| + ColumnsLen(columns[1..])
  }

  function StorageLen(s: StorageObject): nat {
    match s
    case Heap(pages) => 5 + 8 * |pages|
    case BPlusTree(_, columnName, _) => 19 + |columnName|
  }

  function RelationLen(r: RelationInfo): nat {
    13 + StorageLen(r.storage) + |r.name| + ColumnsLen(r.columns)
  }

  function RelationsLen(relations: seq<RelationInfo>): nat {
    if relations == [] then 0 else RelationLen(relations[0]) + RelationsLen(relations[1..])
  }

  function ExtensionsLen(extensions: seq<ExtensionInfo>): nat {
    if extensions == [] then 0
    else 8 + |extensions[0].name| + |extensions[0].kind| + ExtensionsLen(extensions[1..])
  }

  function CatalogLen(c: Catalog): nat {
    30 + RelationsLen(c.relations) + ExtensionsLen(c.extensions)
  }

  lemma {:induction false} ColumnsLength(columns: seq<ColumnDef>)
    ensures |ListBytes(ColumnBytes, columns)| == ColumnsLen(columns)
  {
    if columns != [] {
      ColumnsLength(columns[1..]);
    }
  }

  lemma {:induction false} PagesLength(pages: seq<PageId>)
    ensures |ListBytes(PageIdBytes, pages)| == 8 * |pages|
  {
    if pages != [] {
      PagesLength(pages[1..]);
    }
  }

  lemma {:induction false} RelationsLength(relations: seq<RelationInfo>)
    ensures |ListBytes(RelationBytes, relations)| == RelationsLen(relations)
    ensures RelationsLen(relations) >= |relations|
  {
    if relations != [] {
      RelationsLength(relations[1..]);
      ColumnsLength(relations[0].columns);
      if relations[0].storage.Heap? {
        PagesLength(relations[0].storage.pages);
      }
    }
  }

  lemma {:induction false} ExtensionsLength(extensions: seq<ExtensionInfo>)
    ensures |ListBytes(ExtensionBytes, extensions)| == ExtensionsLen(extensions)
  {
    if extensions != [] {
      ExtensionsLength(extensions[1..]);
    }
  }

  /** The size of a catalog record, from its names and page counts. */
  lemma CatalogLength(c: Catalog)
    ensures |CatalogBytes(c)| == CatalogLen(c)
  {
    hide RelationBytes, ExtensionBytes;
    RelationsLength(c.relations);
    ExtensionsLength(c.extensions);
  }

  lemma {:induction false} RelationsLenConcat(a: seq<RelationInfo>, b: seq<RelationInfo>)
    ensures RelationsLen(a + b) == RelationsLen(a) + RelationsLen(b)
  {
    hide RelationLen;
    if a == [] {
      assert a + b == b;
    } else {
      RelationsLenConcat(a[1..], b);
      assert (a + b)[0] == a[0] && (a + b)[1..] == a[1..] + b;
    }
  }

  lemma RelationsLenUpdate(relations: seq<RelationInfo>, i: nat, r: RelationInfo)
    requires i < |relations|
    ensures RelationsLen(relations[i := r]) + RelationLen(relations[i]) == RelationsLen(relations) + RelationLen(r)
  {
    hide RelationLen;
    var a, b := relations[..i], relations[i + 1..];
    assert relations == a + [relations[i]] + b && relations[i := r] == a + [r] + b;
    RelationsLenConcat(a + [relations[i]], b);
    RelationsLenConcat(a, [relations[i]]);
    RelationsLenConcat(a + [r], b);
    RelationsLenConcat(a, [r]);
    RelationsLenOne(r);
    RelationsLenOne(relations[i]);
  }

  lemma RelationsLenOne(r: RelationInfo)
    ensures RelationsLen([r]) == RelationLen(r)
  {
    assert RelationsLen([r]) == RelationLen(r) + RelationsLen([r][1..]);
  }
}
