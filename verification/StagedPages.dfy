/** The pages a transaction works on: its dirty pages laid over the data file.

A committed lookup uses the same class with nothing dirty. */
module StagedStore {
  import opened Core
  import opened CatalogModel
  import opened IndexModel
  import opened PageModel
  import opened BTreeModel

  class StagedPages {
    const base: map<PageId, Page>
    var dirty: map<PageId, Page>
    var catalog: Catalog

    constructor (base: map<PageId, Page>, catalog: Catalog)
      ensures Valid() && this.base == base && dirty == map[] && this.catalog == catalog
    {
      this.base, dirty, this.catalog := base, map[], catalog;
    }

    /** The pages as the transaction sees them. */
    ghost function View(): map<PageId, Page>
      reads this
    {
      base + dirty
    }

    /** A dirty page is kept under its own id. */
    ghost predicate Valid()
      reads this
    {
      forall p :: p in dirty ==> dirty[p].Id() == p
    }

    method LoadPage(pageId: PageId) returns (r: Result<Page>)
      ensures r == if pageId in View() then Ok(View()[pageId]) else Err(Io)
    {
      if pageId in dirty {
        r := Ok(dirty[pageId]);
      } else if pageId in base {
        r := Ok(base[pageId]);
      } else {
        r := Err(Io);
      }
    }

    method StorePage(page: Page)
      requires Valid()
      modifies this`dirty
      ensures Valid()
      ensures dirty == old(dirty)[page.Id() := page]
      ensures View() == old(View())[page.Id() := page]
    {
      dirty := dirty[page.Id() := page];
    }

    method AllocatePage() returns (r: Result<PageId>)
      modifies this`catalog
      ensures match Allocate(old(catalog.nextPageId))
        case Err(error) => r == Err(error) && catalog == old(catalog)
        case Ok(next) => r == Ok(old(catalog.nextPageId)) && catalog == old(catalog).(nextPageId := next)
    {
      if catalog.nextPageId == U64_MAX {
        return Err(User);
      }
      r := Ok(catalog.nextPageId);
      catalog := catalog.(nextPageId := catalog.nextPageId + 1);
    }
  }

  function NodeToPage(pageId: PageId, node: Node): Result<Page> {
    if Fits(node) then Ok(IndexPage(pageId, node)) else Err(User)
  }

  function NodeFromPage(page: Page): Result<Node> {
    if page.IndexPage? then Ok(page.node) else Err(Corruption)
  }
}
