/** The database one transaction sees: relations over disjoint pages, and the rows of a heap. */
module DbModel {
  import opened Core
  import opened CatalogModel
  import opened CatalogCodec
  import opened IndexModel
  import opened SlottedModel
  import opened PageModel
  import opened BTreeModel
  import opened BTreeHeap
  import opened BTreeTheorems
  import opened BTreeKeys

  /** The tree behind each index relation. */
  type Forest = map<RelationId, Tree>

  datatype HeapRow = HeapRow(rowId: RowId, bytes: Bytes)

  // Heap rows

  /** Live rows of the first `n` slots of a page. */
  function SlotRows(pageId: PageId, slots: seq<Slot>, n: nat): seq<HeapRow>
    requires n <= |slots| <= U16_MAX
  {
    if n == 0 then []
    else
      SlotRows(pageId, slots, n - 1)
      + if slots[n - 1].Live? then [HeapRow(RowId(pageId, n - 1), slots[n - 1].record)] else []
  }

  lemma SoundSlots(p: Slotted)
    requires p.Sound()
    ensures |p.slots| <= 677
  {
  }

  function PageRows(pageId: PageId, p: Slotted): seq<HeapRow>
    requires p.Sound()
  {
    SoundSlots(p);
    SlotRows(pageId, p.slots, |p.slots|)
  }

  ghost predicate HeapPageAt(m: PageMap, p: PageId) {
    p in m && m[p].HeapPage? && m[p].id == p && m[p].rows.Sound()
  }

  ghost predicate HeapPagesAt(m: PageMap, pages: seq<PageId>) {
    forall i :: 0 <= i < |pages| ==> HeapPageAt(m, pages[i])
  }

  /** Every live row of a heap, in page order. */
  ghost function Scan(m: PageMap, pages: seq<PageId>): seq<HeapRow>
    requires HeapPagesAt(m, pages)
  {
    if pages == [] then []
    else
      assert HeapPageAt(m, pages[0]);
      PageRows(pages[0], m[pages[0]].rows) + Scan(m, pages[1..])
  }

  // The invariant

  ghost predicate NoRepeats(pages: seq<PageId>) {
    forall i, j :: 0 <= i < j < |pages| ==> pages[i] != pages[j]
  }

  ghost function Owned(r: RelationInfo, forest: Forest): set<PageId> {
    match r.storage
    case Heap(pages) => set p | p in pages
    case BPlusTree(_, _, _) => if r.id in forest then Pages(forest[r.id]) else {}
  }

  ghost predicate TreeInv(m: PageMap, t: Tree, free: u64) {
    Planted(m, t, None, free) && KeysStored(t) && exists h :: WellFormed(t, h)
  }

  ghost predicate RelationInv(r: RelationInfo, m: PageMap, forest: Forest, free: u64) {
    && (forall p :: p in Owned(r, forest) ==> 0 < p < free)
    && (match r.storage
        case Heap(pages) =>
          r.kind == Table && pages != [] && NoRepeats(pages) && HeapPagesAt(m, pages)
        case BPlusTree(_, _, root) =>
          r.kind == Index && r.id in forest && forest[r.id].page == root && TreeInv(m, forest[r.id], free))
  }

  /** An index names a table and one of its columns. */
  ghost predicate IndexInv(c: Catalog, r: RelationInfo) {
    r.storage.BPlusTree? ==>
      match RelationById(c, r.storage.tableId)
      case None => false
      case Some(table) => table.kind == Table && FindColumn(table.columns, r.storage.columnName) < |table.columns|
  }

  ghost predicate NamesInv(c: Catalog) {
    && (forall i :: 0 <= i < |c.relations| ==> c.relations[i].id < c.nextRelationId)
    && (forall i, j :: 0 <= i < j < |c.relations| ==> c.relations[i].id != c.relations[j].id)
    && (forall i :: 0 <= i < |c.relations| ==> IndexInv(c, c.relations[i]))
  }

  /** Pages owned by different relations are different. */
  ghost predicate Disjoint(relations: seq<RelationInfo>, forest: Forest) {
    forall i, j :: 0 <= i < j < |relations| ==> Owned(relations[i], forest) !! Owned(relations[j], forest)
  }

  ghost predicate DbInv(m: PageMap, c: Catalog, forest: Forest) {
    && c.nextPageId > 0
    && NamesInv(c)
    && (forall i :: 0 <= i < |c.relations| ==> RelationInv(c.relations[i], m, forest, c.nextPageId))
    && Disjoint(c.relations, forest)
  }

  // What an operation on one relation leaves of the others

  ghost predicate SameTree(r: RelationInfo, forest: Forest, forest': Forest) {
    r.storage.BPlusTree? && r.id in forest ==> r.id in forest' && forest'[r.id] == forest[r.id]
  }

  ghost predicate Untouched(m: PageMap, m': PageMap, pages: set<PageId>) {
    forall p :: p in pages && p in m ==> p in m' && m'[p] == m[p]
  }

  lemma RelationKept(r: RelationInfo, m: PageMap, m': PageMap, forest: Forest, forest': Forest, free: u64, free': u64)
    requires RelationInv(r, m, forest, free) && free <= free'
    requires SameTree(r, forest, forest') && Untouched(m, m', Owned(r, forest))
    ensures RelationInv(r, m', forest', free') && Owned(r, forest') == Owned(r, forest)
  {
    match r.storage
    case Heap(pages) =>
      forall i | 0 <= i < |pages| ensures HeapPageAt(m', pages[i]) {
        assert HeapPageAt(m, pages[i]);
      }
    case BPlusTree(_, _, _) =>
      HoldsFrame(m, m', forest[r.id], None);
  }

  lemma {:induction false} ScanKept(m: PageMap, m': PageMap, pages: seq<PageId>)
    requires HeapPagesAt(m, pages)
    requires forall i :: 0 <= i < |pages| ==> pages[i] in m' && m'[pages[i]] == m[pages[i]]
    ensures HeapPagesAt(m', pages) && Scan(m', pages) == Scan(m, pages)
  {
    forall i | 0 <= i < |pages| ensures HeapPageAt(m', pages[i]) {
      assert HeapPageAt(m, pages[i]);
    }
    if pages != [] {
      ScanKept(m, m', pages[1..]);
    }
  }

  /** The operation on relation `i` wrote only that relation's pages, the catalog page and new pages. */
  ghost predicate LocalTo(m: PageMap, m': PageMap, own: set<PageId>, free: u64) {
    forall p :: p in m && p !in own && 0 < p < free ==> p in m' && m'[p] == m[p]
  }

  lemma OthersUntouched(m: PageMap, m': PageMap, c: Catalog, forest: Forest, i: nat, j: nat)
    requires DbInv(m, c, forest) && i < |c.relations| && j < |c.relations| && i != j
    requires LocalTo(m, m', Owned(c.relations[i], forest), c.nextPageId)
    ensures Untouched(m, m', Owned(c.relations[j], forest))
  {
    assert RelationInv(c.relations[j], m, forest, c.nextPageId);
    if i < j {
      assert Owned(c.relations[i], forest) !! Owned(c.relations[j], forest);
    } else {
      assert Owned(c.relations[j], forest) !! Owned(c.relations[i], forest);
    }
  }

  /** Lookups by id do not see which pages a relation owns. */
  ghost predicate SameSchema(r: RelationInfo, r': RelationInfo) {
    && r'.id == r.id && r'.kind == r.kind && r'.columns == r.columns && r'.name == r.name
    && r'.storage.Heap? == r.storage.Heap?
    && (r.storage.BPlusTree? ==> r'.storage.tableId == r.storage.tableId && r'.storage.columnName == r.storage.columnName)
  }

  lemma FindIdUnique(relations: seq<RelationInfo>, i: nat)
    requires i < |relations|
    requires forall a, b :: 0 <= a < b < |relations| ==> relations[a].id != relations[b].id
    ensures FindId(relations, relations[i].id) == i
  {
  }

  lemma NamesKept(c: Catalog, c': Catalog, i: nat, r': RelationInfo)
    requires NamesInv(c) && i < |c.relations| && SameSchema(c.relations[i], r')
    requires c'.relations == c.relations[i := r'] && c'.nextRelationId >= c.nextRelationId
    ensures NamesInv(c')
    ensures forall id :: FindId(c'.relations, id) == FindId(c.relations, id)
  {
    forall id ensures FindId(c'.relations, id) == FindId(c.relations, id) {
      var a, b := FindId(c.relations, id), FindId(c'.relations, id);
      assert a < |c.relations| ==> c'.relations[a].id == id;
      assert b < |c.relations| ==> c.relations[b].id == id;
    }
    forall j | 0 <= j < |c'.relations| ensures IndexInv(c', c'.relations[j]) {
      assert IndexInv(c, c.relations[j]);
    }
  }

  /** One relation rewritten: the whole invariant stands when that relation's part does. */
  lemma UpdateRelation(
      m: PageMap, m': PageMap, c: Catalog, c': Catalog, forest: Forest, forest': Forest, i: nat, r': RelationInfo)
    requires DbInv(m, c, forest) && i < |c.relations| && SameSchema(c.relations[i], r')
    requires c'.relations == c.relations[i := r']
    requires c'.nextRelationId == c.nextRelationId && c'.nextPageId >= c.nextPageId
    requires LocalTo(m, m', Owned(c.relations[i], forest), c.nextPageId)
    requires forall id :: id in forest && id != r'.id ==> id in forest' && forest'[id] == forest[id]
    requires RelationInv(r', m', forest', c'.nextPageId)
    requires forall p :: p in Owned(r', forest') ==> p in Owned(c.relations[i], forest) || c.nextPageId <= p
    ensures DbInv(m', c', forest')
  {
    NamesKept(c, c', i, r');
    var rs := c'.relations;
    forall j | 0 <= j < |rs| && j != i
      ensures RelationInv(rs[j], m', forest', c'.nextPageId)
      ensures Owned(rs[j], forest') == Owned(c.relations[j], forest)
    {
      assert RelationInv(c.relations[j], m, forest, c.nextPageId);
      OthersUntouched(m, m', c, forest, i, j);
      assert rs[j].id != r'.id;
      RelationKept(rs[j], m, m', forest, forest', c.nextPageId, c'.nextPageId);
    }
    forall a, b | 0 <= a < b < |rs| ensures Owned(rs[a], forest') !! Owned(rs[b], forest') {
      assert RelationInv(c.relations[a], m, forest, c.nextPageId) && RelationInv(c.relations[b], m, forest, c.nextPageId);
      assert Owned(c.relations[a], forest) !! Owned(c.relations[b], forest);
    }
  }

  /** One relation added on a fresh page. */
  lemma AddRelationInv(m: PageMap, m': PageMap, c: Catalog, c': Catalog, forest: Forest, forest': Forest, r: RelationInfo)
    requires DbInv(m, c, forest)
    requires c'.relations == c.relations + [r] && r.id == c.nextRelationId && c'.nextRelationId == c.nextRelationId + 1
    requires c'.nextPageId == c.nextPageId + 1
    requires LocalTo(m, m', {}, c.nextPageId)
    requires forall id :: id in forest && id != r.id ==> id in forest' && forest'[id] == forest[id]
    requires RelationInv(r, m', forest', c'.nextPageId) && Owned(r, forest') == {c.nextPageId} && IndexInv(c, r)
    ensures DbInv(m', c', forest')
  {
    var rs := c'.relations;
    forall j | 0 <= j < |c.relations|
      ensures RelationInv(rs[j], m', forest', c'.nextPageId)
      ensures Owned(rs[j], forest') == Owned(c.relations[j], forest)
    {
      assert RelationInv(c.relations[j], m, forest, c.nextPageId);
      RelationKept(c.relations[j], m, m', forest, forest', c.nextPageId, c'.nextPageId);
    }
    AddedNames(c, c', r);
    forall a, b | 0 <= a < b < |rs| ensures Owned(rs[a], forest') !! Owned(rs[b], forest') {
      assert RelationInv(c.relations[a], m, forest, c.nextPageId);
      if b < |c.relations| {
        assert Owned(c.relations[a], forest) !! Owned(c.relations[b], forest);
      }
    }
  }

  lemma AddedNames(c: Catalog, c': Catalog, r: RelationInfo)
    requires NamesInv(c) && IndexInv(c, r)
    requires c'.relations == c.relations + [r] && r.id == c.nextRelationId && c'.nextRelationId == c.nextRelationId + 1
    ensures NamesInv(c')
    ensures forall id :: id != r.id ==> RelationById(c', id) == RelationById(c, id)
    ensures RelationById(c', r.id) == Some(r)
  {
    forall id | id != r.id ensures RelationById(c', id) == RelationById(c, id) {
      var a, b := FindId(c.relations, id), FindId(c'.relations, id);
      assert a < |c.relations| ==> c'.relations[a].id == id;
      assert b < |c.relations| ==> c.relations[b].id == id;
      assert b <= |c.relations| ==> c'.relations[|c.relations|] == r;
    }
    assert c'.relations[|c.relations|] == r;
    FindIdUnique(c'.relations, |c.relations|);
    assert RelationById(c, r.id) == None;
    forall j | 0 <= j < |c'.relations| ensures IndexInv(c', c'.relations[j]) {
      assert j < |c.relations| ==> IndexInv(c, c.relations[j]);
    }
  }
}
