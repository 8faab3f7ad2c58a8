/** Index nodes and the catalog as the one record of a slotted page. */
module PageRecords {
  import opened Core
  import opened CatalogModel
  import opened CatalogCodec
  import opened CatalogCoder
  import opened IndexModel
  import opened BTreeModel
  import opened NodeCodec
  import opened NodeCoder
  import opened SlottedModel
  import opened PageBytes
  import opened SlottedPages

  /** A record has room in an empty page exactly up to the capacity the upper layers reckon with. */
  lemma EmptyPageRoom(record: Bytes)
    ensures HasRoom(EMPTY, record) <==> |record| <= NODE_CAPACITY
    ensures FirstDead(EMPTY.slots) == 0
  {
  }

  method NodeToPage(pageId: PageId, node: Node) returns (r: Result<SlottedPage>)
    ensures r.Ok? <==> Fits(node) && (node.Internal? ==> |node.children| == |node.keys| + 1)
    ensures r.Err? ==>
      r.error == if node.Internal? && |node.children| != |node.keys| + 1 then Corruption else User
    ensures r.Ok? ==>
      && fresh(r.value) && fresh(r.value.bytes) && r.value.Valid()
      && r.value.Head().pageId == pageId && r.value.Head().pageType == IndexPageType
      && r.value.Rows().slots == [Live(NodeBytes(node))]
  {
    hide NodeBytes, HeaderOf, Sane, NodeCodec.Encodable, Fits;
    var page := new SlottedPage(pageId, IndexPageType);
    var encoded := EncodeNode(node);
    NodeRoom(node);
    match encoded
    case Err(error) =>
      r := Err(error);
    case Ok(bytes) =>
      var inserted := page.InsertRecord(bytes);
      match inserted
      case Err(error) => r := Err(error);
      case Ok(_) => r := Ok(page);
  }

  lemma NodeRoom(node: Node)
    ensures HasRoom(EMPTY, NodeBytes(node)) <==> Fits(node)
    ensures FirstDead(EMPTY.slots) == 0
    ensures Fits(node) && (node.Internal? ==> |node.children| == |node.keys| + 1) ==> NodeCodec.Encodable(node)
  {
    NodeLength(node);
    EmptyPageRoom(NodeBytes(node));
    if Fits(node) && (node.Internal? ==> |node.children| == |node.keys| + 1) {
      FittingIsEncodable(node);
    }
  }

  /** What an index page reads as. */
  ghost function NodeIn(pageType: PageType, rows: Slotted): Result<Node> {
    if pageType != IndexPageType then Err(Corruption)
    else if rows.slots == [] then Err(User)
    else
      match rows.slots[0]
      case Dead => Err(Corruption)
      case Live(record) =>
        match ParseNode(record)
        case None => Err(Corruption)
        case Some(node) => Ok(node)
  }

  method NodeFromPage(page: SlottedPage) returns (r: Result<Node>)
    requires page.Valid()
    ensures r == NodeIn(page.Head().pageType, page.Rows())
  {
    hide HeaderOf, Sane, ParseNode, Validates;
    HeaderParses(page);
    var header := page.Header();
    match header
    case Err(error) =>
      r := Err(error);
    case Ok(h) =>
      if h.pageType != IndexPageType {
        return Err(Corruption);
      }
      var record := page.ReadRecord(0);
      match record
      case Err(error) => r := Err(error);
      case Ok(None) => r := Err(Corruption);
      case Ok(Some(bytes)) => r := DecodeNode(bytes);
  }

  lemma HeaderParses(page: SlottedPage)
    requires page.Valid()
    ensures page.bytes.Length == PAGE_SIZE && Validates(page.bytes[..]) && HeaderOf(page.bytes[..]) == Ok(page.Head())
  {
    SaneValidates(page.bytes[..]);
  }

  /** A node put on a page reads back the same: every node the tree layer stores. */
  method StoreAndLoadNode(pageId: PageId, node: Node) returns (r: Result<Node>)
    requires node.Internal? ==> |node.children| == |node.keys| + 1
    ensures r == if Fits(node) then Ok(node) else Err(User)
  {
    hide NodeBytes, ParseNode, HeaderOf, Sane, Fits, NodeCodec.Encodable;
    var stored := NodeToPage(pageId, node);
    match stored
    case Err(error) =>
      r := Err(error);
    case Ok(page) =>
      NodeRoom(node);
      NodeRoundTrip(node);
      r := NodeFromPage(page);
  }

  // The catalog page

  method CatalogToPage(c: Catalog) returns (r: Result<SlottedPage>)
    ensures r.Ok? <==> CatalogCodec.Encodable(c) && |CatalogBytes(c)| <= NODE_CAPACITY
    ensures r.Err? ==> r.error == User
    ensures r.Ok? ==>
      && fresh(r.value) && fresh(r.value.bytes) && r.value.Valid()
      && r.value.Head().pageId == CATALOG_PAGE_ID && r.value.Head().pageType == CatalogPageType
      && r.value.Rows().slots == [Live(CatalogBytes(c))]
  {
    hide CatalogBytes, HeaderOf, Sane, CatalogCodec.Encodable;
    var encoded := EncodeCatalog(c);
    match encoded
    case Err(error) =>
      r := Err(error);
    case Ok(bytes) =>
      var page := new SlottedPage(CATALOG_PAGE_ID, CatalogPageType);
      EmptyPageRoom(bytes);
      var inserted := page.InsertRecord(bytes);
      match inserted
      case Err(error) => r := Err(error);
      case Ok(_) => r := Ok(page);
  }

  /** Read the catalog off page 0. */
  method CatalogFromPage(page: SlottedPage) returns (r: Result<Catalog>)
    requires page.Valid()
    ensures page.Head().pageType != CatalogPageType ==> r == Err(Corruption)
    ensures page.Head().pageType == CatalogPageType && page.Rows().slots != [] && page.Rows().slots[0].Live? ==>
      r == match ParseCatalog(page.Rows().slots[0].record) case None => Err(Corruption) case Some(c) => Ok(c)
  {
    hide HeaderOf, Sane, ParseCatalog, Validates;
    HeaderParses(page);
    var header := page.Header();
    match header
    case Err(error) =>
      r := Err(error);
    case Ok(h) =>
      if h.pageType != CatalogPageType {
        return Err(Corruption);
      }
      var record := page.ReadRecord(0);
      match record
      case Err(error) => r := Err(error);
      case Ok(None) => r := Err(Corruption);
      case Ok(Some(bytes)) => r := DecodeCatalog(bytes);
  }

  /** A catalog whose heaps have pages reads back the same exactly when its record fits. */
  method StoreAndLoadCatalog(c: Catalog) returns (r: Result<Catalog>)
    requires HeapsHavePages(c)
    ensures r == if CatalogCodec.Encodable(c) && |CatalogBytes(c)| <= NODE_CAPACITY then Ok(c) else Err(User)
  {
    hide CatalogBytes, ParseCatalog, HeaderOf, Sane, CatalogCodec.Encodable;
    var stored := CatalogToPage(c);
    match stored
    case Err(error) =>
      r := Err(error);
    case Ok(page) =>
      CatalogRoundTrip(c);
      r := CatalogFromPage(page);
  }
}
