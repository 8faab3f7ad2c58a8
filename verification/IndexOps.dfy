/** What creating an index and inserting an index entry keep of the database a transaction sees. */
module IndexOps {
  import opened Core
  import opened CatalogModel
  import opened CatalogCodec
  import opened IndexModel
  import opened SlottedModel
  import opened PageModel
  import opened BTreeModel
  import opened BTreeHeap
  import opened BTreeTheorems
  import opened BTreeKeys
  import opened DbModel
  import opened HeapOps

  function CreateIndex(m: PageMap, c: Catalog, name: Core.Text, tableId: RelationId, columnName: Core.Text)
    : Staged<(RelationId, PageId)>
  {
    var change := CreateIndexMetadata(c, name, tableId, columnName);
    match change.result
    case Err(error) => Staged(m, change.catalog, Err(error))
    case Ok((id, page)) => SaveCatalog(m[page := PageOf(EmptyTree(page), None)], change.catalog, (id, page))
  }

  /** The catalog record has room for that index. */
  ghost predicate IndexFits(c: Catalog, name: Core.Text, tableId: RelationId, columnName: Core.Text) {
    && IndexAllowed(c, name, tableId, columnName)
    && CatalogLen(c) + RelationLen(RelationInfo(c.nextRelationId, name, Index, BPlusTree(tableId, columnName, c.nextPageId),
                                                [ColumnDef(columnName, INDEX_KEY_TYPE)])) <= NODE_CAPACITY
  }

  /** CREATE INDEX first adds exactly that index, an empty root leaf, or is refused when the catalog cannot take it. */
  lemma CreateIndexExact(m: PageMap, c: Catalog, name: Core.Text, tableId: RelationId, columnName: Core.Text)
    requires Storable(c)
    ensures var s := CreateIndex(m, c, name, tableId, columnName);
      if IndexFits(c, name, tableId, columnName) then
        && s.result == Ok((c.nextRelationId, c.nextPageId))
        && Added(c, s.catalog, RelationInfo(c.nextRelationId, name, Index, BPlusTree(tableId, columnName, c.nextPageId),
                                            [ColumnDef(columnName, INDEX_KEY_TYPE)]))
        && s.pages == m[c.nextPageId := IndexPage(c.nextPageId, Leaf(None, []))][CATALOG_PAGE_ID := CatalogPage(s.catalog)]
      else s.result == Err(User)
  {
    hide Storable, CreateIndexMetadata, IndexAllowed, Added;
    IndexMetadataExact(c, name, tableId, columnName);
    if IndexAllowed(c, name, tableId, columnName) {
      var r := RelationInfo(c.nextRelationId, name, Index, BPlusTree(tableId, columnName, c.nextPageId),
                            [ColumnDef(columnName, INDEX_KEY_TYPE)]);
      IndexColumnFits(c, name, tableId, columnName);
      StorableAdded(c, CreateIndexMetadata(c, name, tableId, columnName).catalog, r);
    }
  }

  lemma IndexColumnFits(c: Catalog, name: Core.Text, tableId: RelationId, columnName: Core.Text)
    requires IndexAllowed(c, name, tableId, columnName)
    ensures RelationFits(RelationInfo(c.nextRelationId, name, Index, BPlusTree(tableId, columnName, c.nextPageId),
                                      [ColumnDef(columnName, INDEX_KEY_TYPE)]))
  {
  }

  /** `id` names an index. */
  ghost predicate HasIndex(c: Catalog, id: RelationId) {
    RelationById(c, id).Some? && RelationById(c, id).value.storage.BPlusTree?
  }

  /** Every relation scans as before. */
  ghost predicate RowsKept(m: PageMap, c: Catalog, m': PageMap, c': Catalog) {
    forall id :: Rows(m', c', id) == Rows(m, c, id)
  }

  /** A new index is an empty tree on a fresh page, and disturbs nothing. */
  lemma CreateIndexKeeps(m: PageMap, c: Catalog, forest: Forest, name: Core.Text, tableId: RelationId, columnName: Core.Text)
    requires DbInv(m, c, forest)
    requires CreateIndex(m, c, name, tableId, columnName).result.Ok?
    ensures var s := CreateIndex(m, c, name, tableId, columnName);
      var (id, page) := s.result.value;
      && RelationById(c, id) == None
      && DbInv(s.pages, s.catalog, forest[id := EmptyTree(page)])
      && RowsKept(m, c, s.pages, s.catalog)
  {
    hide Utf8, Scan, FindId, FindName, FindColumn, CatalogBytes, IndexesOn;
    var s := CreateIndex(m, c, name, tableId, columnName);
    var page := c.nextPageId;
    var r := RelationInfo(c.nextRelationId, name, Index, BPlusTree(tableId, columnName, page), [ColumnDef(columnName, INDEX_KEY_TYPE)]);
    var forest' := forest[r.id := EmptyTree(page)];
    assert s.pages[page] == PageOf(EmptyTree(page), None);
    EmptyTreeWellFormed(page);
    EmptyKeysStored(page);
    assert TreeInv(s.pages, EmptyTree(page), s.catalog.nextPageId);
    AddRelationInv(m, s.pages, c, s.catalog, forest, forest', r);
    AddKeepsRows(m, s.pages, c, s.catalog, forest, r);
    assert Rows(m, c, r.id) == [];
  }

  /** The catalog after the root of index `i` moved to `root` and pages below `free` were taken. */
  function Rerooted(c: Catalog, i: nat, root: PageId, free: u64): Catalog
    requires i < |c.relations| && c.relations[i].storage.BPlusTree?
  {
    var r := c.relations[i];
    c.(nextPageId := free, relations := c.relations[i := r.(storage := r.storage.(rootPageId := root))])
  }

  lemma RerootedIsSet(c: Catalog, i: nat, root: PageId, free: u64)
    requires NamesInv(c) && i < |c.relations| && c.relations[i].storage.BPlusTree? && c.relations[i].kind == Index
    ensures SetIndexRootPage(c.(nextPageId := free), c.relations[i].id, root) == Ok(Rerooted(c, i, root, free))
    ensures root == c.relations[i].storage.rootPageId ==> Rerooted(c, i, root, free) == c.(nextPageId := free)
  {
    FindIdUnique(c.relations, i);
    assert root == c.relations[i].storage.rootPageId ==> Rerooted(c, i, root, free).relations == c.relations;
  }

  /** Moving a root leaves the size of the catalog record alone. */
  lemma RerootedStorable(c: Catalog, i: nat, root: PageId, free: u64)
    requires Storable(c) && i < |c.relations| && c.relations[i].storage.BPlusTree?
    ensures Storable(Rerooted(c, i, root, free))
  {
    hide Utf8, CatalogBytes, RelationLen;
    StorableSize(c);
    assert RelationFits(c.relations[i]);
    StorableUpdated(c, Rerooted(c, i, root, free), i, c.relations[i].storage.(rootPageId := root));
  }

  /** An entry goes into one tree, whose root may move; every heap and every other tree is untouched. */
  lemma InsertEntryKeeps(
      m: PageMap, n: PageMap, c: Catalog, forest: Forest, i: nat, e: IndexEntry, grown: Regrown)
    requires DbInv(m, c, forest) && i < |c.relations| && c.relations[i].storage.BPlusTree?
    requires c.relations[i].id in forest
    requires var t := forest[c.relations[i].id];
      && InsertRoot(t, e, c.nextPageId) == Ok(grown)
      && Framed(m, n, Pages(t), c.nextPageId)
      && Planted(n, grown.tree, None, grown.free)
      && Pages(grown.tree) == Pages(t) + Ids(c.nextPageId, grown.free)
      && c.nextPageId <= grown.free
    ensures var id := c.relations[i].id;
      var c' := Rerooted(c, i, grown.tree.page, grown.free);
      var m' := n[CATALOG_PAGE_ID := CatalogPage(c')];
      && DbInv(m', c', forest[id := grown.tree])
      && Contents(grown.tree) == Contents(forest[id]) + multiset{e}
      && RowsKept(m, c, m', c')
  {
    hide Scan, FindId, Pages, Holds, InsertRoot, Distinct, Balanced, Ordered, Entries, KeysStored;
    var r := c.relations[i];
    var t := forest[r.id];
    assert RelationInv(r, m, forest, c.nextPageId);
    var h :| WellFormed(t, h);
    var h' := InsertRootKeeps(t, h, e, c.nextPageId);
    var c' := Rerooted(c, i, grown.tree.page, grown.free);
    var m' := n[CATALOG_PAGE_ID := CatalogPage(c')];
    var r' := c'.relations[i];
    forall p | p in Pages(grown.tree) ensures 0 < p < grown.free {
      assert p in Pages(t) ==> p in Owned(r, forest);
    }
    HoldsFrame(n, m', grown.tree, None);
    InsertKeysStored(t, h, e, c.nextPageId);
    assert TreeInv(m', grown.tree, grown.free) by {
      assert WellFormed(grown.tree, h');
    }
    UpdateRelation(m, m', c, c', forest, forest[r.id := grown.tree], i, r');
    UpdateKeepsRows(m, m', c, c', forest, i, r');
    FindIdUnique(c.relations, i);
  }

  /** An insert never hands back page ids. */
  lemma {:induction false} InsertFree(t: Tree, e: IndexEntry, free: u64)
    ensures Insert(t, e, free).Ok? ==> free <= Insert(t, e, free).value.free
    decreases t
  {
    if t.NodeT? && |t.kids| == |t.keys| + 1 {
      InsertFree(t.kids[ChildIndex(t.keys, e.key)], e, free);
    }
  }

  lemma InsertRootFree(t: Tree, e: IndexEntry, free: u64)
    ensures InsertRoot(t, e, free).Ok? ==> free <= InsertRoot(t, e, free).value.free
  {
    InsertFree(t, e, free);
  }

  /** What the invariant says of index `i`. */
  lemma IndexPlanted(m: PageMap, c: Catalog, forest: Forest, i: nat)
    requires DbInv(m, c, forest) && i < |c.relations| && c.relations[i].storage.BPlusTree?
    ensures var r := c.relations[i];
      && r.kind == Index && r.id in forest && NamesInv(c)
      && forest[r.id].page == r.storage.rootPageId
      && Planted(m, forest[r.id], None, c.nextPageId) && KeysStored(forest[r.id])
      && exists h :: WellFormed(forest[r.id], h)
  {
    assert RelationInv(c.relations[i], m, forest, c.nextPageId);
  }
}
