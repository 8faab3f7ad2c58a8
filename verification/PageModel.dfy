/** What a page of the data file holds, once its bytes are decoded. */
module PageModel {
  import opened Core
  import opened CatalogModel
  import opened IndexModel
  import opened SlottedModel

  datatype Page =
    | CatalogPage(catalog: Catalog)
    | HeapPage(id: PageId, rows: Slotted)
    | IndexPage(id: PageId, node: Node)
  {
    /** The page id in the header. */
    function Id(): PageId {
      if CatalogPage? then CATALOG_PAGE_ID else id
    }
  }
}
