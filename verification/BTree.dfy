/** B+Tree insert and lookup over staged pages, proved against the tree as a value. */
module BTree {
  import opened Core
  import opened IndexModel
  import opened PageModel
  import opened BTreeModel
  import opened BTreeHeap
  import opened BTreeOrder
  import opened BTreeLookup
  import opened StagedStore

  datatype SplitResult = SplitResult(separator: IndexKey, rightPageId: PageId)

  function Summary(g: Grown): Option<SplitResult> {
    match g.split
    case None => None
    case Some(s) => Some(SplitResult(s.separator, s.right.page))
  }

  method LoadNode(store: StagedPages, pageId: PageId) returns (r: Result<Node>)
    ensures r == if pageId in store.View() then NodeFromPage(store.View()[pageId]) else Err(Io)
  {
    var page :- store.LoadPage(pageId);
    r := NodeFromPage(page);
  }

  /** Store the leaf that took an entry, cutting it in two when it overflows. */
  method FinishInsertLeaf(
      store: StagedPages, pageId: PageId, nextLeaf: Option<PageId>, entries0: seq<IndexEntry>)
    returns (r: Result<Option<SplitResult>>)
    requires store.Valid()
    modifies store
    ensures store.Valid()
    ensures Framed(old(store.View()), store.View(), {pageId}, old(store.catalog.nextPageId))
    ensures store.catalog == old(store.catalog).(nextPageId := store.catalog.nextPageId)
    ensures match FinishLeaf(pageId, entries0, old(store.catalog.nextPageId))
      case Err(error) => r == Err(error)
      case Ok(g) =>
        && r == Ok(Summary(g))
        && store.catalog.nextPageId == g.free
        && store.View() == Written(old(store.View()), g, nextLeaf)
  {
    var entries := entries0;
    if |entries| <= MAX_KEYS {
      var page :- NodeToPage(pageId, Leaf(nextLeaf, entries));
      store.StorePage(page);
      return Ok(None);
    }
    var rightPageId :- store.AllocatePage();
    var splitAt := |entries| / 2;
    var rightEntries := entries[splitAt..];
    entries := entries[..splitAt];
    var separator := rightEntries[0].key;
    var left :- NodeToPage(pageId, Leaf(Some(rightPageId), entries));
    store.StorePage(left);
    var right :- NodeToPage(rightPageId, Leaf(nextLeaf, rightEntries));
    store.StorePage(right);
    return Ok(Some(SplitResult(separator, rightPageId)));
  }

  /** Store the node that took a separator, cutting it in two when it overflows. */
  method FinishInsertInternal(
      store: StagedPages, pageId: PageId, keys0: seq<IndexKey>, children0: seq<PageId>, ghost kids: seq<Tree>,
      ghost next: Option<PageId>)
    returns (r: Result<Option<SplitResult>>)
    requires |kids| == |keys0| + 1 && children0 == Roots(kids)
    requires store.Valid()
    modifies store
    ensures store.Valid()
    ensures Framed(old(store.View()), store.View(), {pageId}, old(store.catalog.nextPageId))
    ensures store.catalog == old(store.catalog).(nextPageId := store.catalog.nextPageId)
    ensures match FinishNode(pageId, keys0, kids, old(store.catalog.nextPageId))
      case Err(error) => r == Err(error)
      case Ok(g) =>
        && r == Ok(Summary(g))
        && store.catalog.nextPageId == g.free
        && store.View() == Written(old(store.View()), g, next)
  {
    var keys, children := keys0, children0;
    if |keys| <= MAX_KEYS {
      var page :- NodeToPage(pageId, Internal(keys, children));
      store.StorePage(page);
      return Ok(None);
    }
    var promotedIndex := |keys| / 2;
    var separator := keys[promotedIndex];
    var rightKeys := keys[promotedIndex + 1..];
    keys := keys[..promotedIndex];
    var rightChildren := children[promotedIndex + 1..];
    children := children[..promotedIndex + 1];
    assert children == Roots(kids[..promotedIndex + 1]) && rightChildren == Roots(kids[promotedIndex + 1..]);
    var rightPageId :- store.AllocatePage();
    var left :- NodeToPage(pageId, Internal(keys, children));
    store.StorePage(left);
    var right :- NodeToPage(rightPageId, Internal(rightKeys, rightChildren));
    store.StorePage(right);
    return Ok(Some(SplitResult(separator, rightPageId)));
  }

  /** Take over what a child split off, if anything. `m` is the page map before the child grew to `g`. */
  method FinishInsertChild(
      store: StagedPages, pageId: PageId, oldKeys: seq<IndexKey>, oldChildren: seq<PageId>, childIndex: nat,
      split: Option<SplitResult>, ghost t: Tree, ghost next: Option<PageId>, ghost m: PageMap, ghost free: u64, ghost g: Grown)
    returns (r: Result<Option<SplitResult>>)
    requires t.NodeT? && t.page == pageId && t.keys == oldKeys && Roots(t.kids) == oldChildren
    requires |t.kids| == |t.keys| + 1 && childIndex < |t.kids|
    requires Planted(m, t, next, free) && Framed(m, store.View(), Pages(t.kids[childIndex]), free)
    requires GrownPlanted(store.View(), g, t.kids[childIndex], NextOf(t.kids, childIndex, next), free)
    requires g.free == store.catalog.nextPageId && split == Summary(g)
    requires store.Valid()
    modifies store
    ensures store.Valid()
    ensures Framed(old(store.View()), store.View(), {pageId}, old(store.catalog.nextPageId))
    ensures store.catalog == old(store.catalog).(nextPageId := store.catalog.nextPageId)
    ensures match Regrow(pageId, oldKeys, t.kids, childIndex, g)
      case Err(error) => r == Err(error)
      case Ok(grown) =>
        && r == Ok(Summary(grown))
        && store.catalog.nextPageId == grown.free
        && GrownHolds(store.View(), grown, next)
  {
    hide Pages, Distinct, FirstLeaf, Holds, HoldsAll, PagesOf, FinishNode;
    if Regrow(pageId, oldKeys, t.kids, childIndex, g).Ok? {
      RegrowHolds(m, store.View(), t, next, free, childIndex, g);
    }
    match split
    case None =>
      return Ok(None);
    case Some(s) =>
      var keys := oldKeys[..childIndex] + [s.separator] + oldKeys[childIndex..];
      var children := oldChildren[..childIndex + 1] + [s.rightPageId] + oldChildren[childIndex + 1..];
      ghost var kids := GraftKids(t.kids, childIndex, g.left, g.split.value);
      GraftRoots(t.kids, childIndex, g.left, g.split.value);
      r := FinishInsertInternal(store, pageId, keys, children, kids, next);
  }

  method InsertRecursive(
      store: StagedPages, pageId: PageId, key: IndexKey, rowId: RowId, ghost t: Tree, ghost next: Option<PageId>)
    returns (r: Result<Option<SplitResult>>)
    requires t.page == pageId && Planted(store.View(), t, next, store.catalog.nextPageId)
    requires store.Valid()
    modifies store
    ensures store.Valid()
    ensures Framed(old(store.View()), store.View(), Pages(t), old(store.catalog.nextPageId))
    ensures store.catalog == old(store.catalog).(nextPageId := store.catalog.nextPageId)
    ensures match Insert(t, IndexEntry(key, rowId), old(store.catalog.nextPageId))
      case Err(error) => r == Err(error)
      case Ok(g) =>
        && r == Ok(Summary(g))
        && store.catalog.nextPageId == g.free
        && GrownHolds(store.View(), g, next)
    decreases t
  {
    ghost var m, free := store.View(), store.catalog.nextPageId;
    ghost var e := IndexEntry(key, rowId);
    var loaded := LoadNode(store, pageId);
    match loaded
    case Err(error) =>
      r := Err(error);
    case Ok(Leaf(nextLeaf, entries)) =>
      assert t == LeafT(pageId, entries) && pageId in Pages(t);
      r := FinishInsertLeaf(store, pageId, nextLeaf, InsertEntry(entries, IndexEntry(key, rowId)));
      if r.Ok? {
        FinishLeafHolds(m, pageId, InsertEntry(entries, e), nextLeaf, free);
      }
    case Ok(Internal(keys, children)) =>
      if |children| != |keys| + 1 {
        return Err(Corruption);
      }
      var childIndex := ChildIndex(keys, key);
      var childPageId := children[childIndex];
      ghost var kid, link := t.kids[childIndex], NextOf(t.kids, childIndex, next);
      ChildPlanted(m, t, next, childIndex, free);
      var split :- InsertRecursive(store, childPageId, key, rowId, kid, link);
      InsertPages(kid, e, free);
      r := FinishInsertChild(store, pageId, keys, children, childIndex, split, t, next, m, free, Insert(kid, e, free).value);
  }

  /** Write an empty root leaf. */
  method InitializeRoot(store: StagedPages, rootPageId: PageId)
    requires store.Valid()
    modifies store`dirty
    ensures store.Valid()
    ensures store.View() == old(store.View())[rootPageId := PageOf(LeafT(rootPageId, []), None)]
  {
    store.StorePage(IndexPage(rootPageId, Leaf(None, [])));
  }

  /** Insert one entry below `rootPageId` and return the root from then on. */
  method InsertEntryAtRoot(store: StagedPages, rootPageId: PageId, key: IndexKey, rowId: RowId, ghost t: Tree)
    returns (r: Result<PageId>)
    requires t.page == rootPageId && Planted(store.View(), t, None, store.catalog.nextPageId)
    requires store.Valid()
    modifies store
    ensures store.Valid()
    ensures Framed(old(store.View()), store.View(), Pages(t), old(store.catalog.nextPageId))
    ensures store.catalog == old(store.catalog).(nextPageId := store.catalog.nextPageId)
    ensures match InsertRoot(t, IndexEntry(key, rowId), old(store.catalog.nextPageId))
      case Err(error) => r == Err(error)
      case Ok(grown) =>
        && r == Ok(grown.tree.page)
        && store.catalog.nextPageId == grown.free
        && Planted(store.View(), grown.tree, None, grown.free)
        && Pages(grown.tree) == Pages(t) + Ids(old(store.catalog.nextPageId), grown.free)
  {
    hide Pages, Distinct, FirstLeaf, Insert, Holds, HoldsAll, NodeLen, GrownHolds, GrownTakes;
    ghost var e, free := IndexEntry(key, rowId), store.catalog.nextPageId;
    var split :- InsertRecursive(store, rootPageId, key, rowId, t, None);
    ghost var n, g := store.View(), Insert(t, e, free).value;
    InsertPages(t, e, free);
    if JoinRoot(g).Ok? {
      RootHolds(n, g, Pages(t), free);
    }
    match split
    case None =>
      return Ok(rootPageId);
    case Some(s) =>
      var newRootPageId :- store.AllocatePage();
      var newRoot :- NodeToPage(newRootPageId, Internal([s.separator], [rootPageId, s.rightPageId]));
      store.StorePage(newRoot);
      return Ok(newRootPageId);
  }

  /** Descend, one page a level, to a leaf with only smaller keys before it and none smaller after it. */
  method FindLeaf(store: StagedPages, rootPageId: PageId, key: IndexKey, ghost t: Tree, ghost h: nat)
    returns (r: Result<PageId>, ghost loads: nat)
    requires t.page == rootPageId && Holds(store.View(), t, None)
    requires Balanced(t, h, true) && Ordered(t)
    ensures r.Ok? && StartPage(Leaves(t), key, r.value)
    ensures loads == h + 1
  {
    hide Ordered, AllBalanced, LeavesOf, AllLess, AllAtLeast;
    var pageId := rootPageId;
    loads := 0;
    ghost var cur, curH, isRoot, link := t, h, true, None;
    ghost var before: seq<LeafPage>, after: seq<LeafPage> := [], [];
    NoLeaves(key);
    while true
      invariant cur.page == pageId && Holds(store.View(), cur, link)
      invariant Balanced(cur, curH, isRoot) && Ordered(cur) && loads + curH == h
      invariant Leaves(t) == before + Leaves(cur) + after && AllLess(before, key) && AllAtLeast(after, key)
      decreases cur
    {
      var loaded := LoadNode(store, pageId);
      loads := loads + 1;
      match loaded
      case Err(error) =>
        r := Err(error);
        return;
      case Ok(Leaf(_, _)) =>
        LeafIndex(before, LeafPage(pageId, cur.entries), after);
        assert StartsAt(Leaves(t), key, |before|);
        r := Ok(pageId);
        return;
      case Ok(Internal(keys, children)) =>
        if |children| != |keys| + 1 {
          r := Err(Corruption);
          return;
        }
        var childIndex := ChildIndex(keys, key);
        before, after := DescendStep(store.View(), cur, curH, isRoot, link, key, before, after);
        link := NextOf(cur.kids, childIndex, link);
        cur, curH, isRoot := cur.kids[childIndex], curH - 1, false;
        pageId := children[childIndex];
    }
  }

  /** Row ids of one leaf's entries equal to `key`, up to the first greater key. */
  method CollectMatches(entries: seq<IndexEntry>, key: IndexKey) returns (rowIds: seq<RowId>, stop: nat)
    ensures stop <= |entries| && rowIds == Matches(entries[..stop], key)
    ensures stop < |entries| ==> KeyLess(key, entries[stop].key)
    ensures forall j :: 0 <= j < stop ==> KeyLe(entries[j].key, key)
  {
    hide BytesLess;
    rowIds := [];
    for j := 0 to |entries|
      invariant rowIds == Matches(entries[..j], key)
      invariant forall k :: 0 <= k < j ==> KeyLe(entries[k].key, key)
    {
      KeyTrichotomy(entries[j].key, key);
      assert entries[..j + 1] == entries[..j] + [entries[j]];
      MatchesConcat(entries[..j], [entries[j]], key);
      if entries[j].key == key {
        rowIds := rowIds + [entries[j].rowId];
      } else if KeyLess(key, entries[j].key) {
        return rowIds, j;
      }
    }
    stop := |entries|;
    assert entries[..stop] == entries;
  }

  /** Every row id stored under `key`, read off the leaf chain. */
  method Lookup(store: StagedPages, rootPageId: PageId, key: IndexKey, ghost t: Tree, ghost h: nat)
    returns (r: Result<seq<RowId>>)
    requires t.page == rootPageId && Holds(store.View(), t, None)
    requires Balanced(t, h, true) && Ordered(t)
    ensures r == Ok(Matches(Entries(t), key))
  {
    ghost var leaves := Leaves(t);
    HoldsChain(store.View(), t, None, h, true);
    OrderedEntries(t, h, true);
    ghost var loads;
    var found;
    found, loads := FindLeaf(store, rootPageId, key, t, h);
    match found
    case Err(error) => r := Err(error);
    case Ok(leafPageId) =>
      ghost var i: nat :| StartsAt(leaves, key, i) && leaves[i].page == leafPageId;
      StartOfMatches(leaves, i, key);
      r := LookupFrom(store, leafPageId, key, leaves, i);
  }

  /** Walk the chain from leaf `start`. */
  method LookupFrom(store: StagedPages, firstPageId: PageId, key: IndexKey, ghost leaves: seq<LeafPage>, ghost start: nat)
    returns (r: Result<seq<RowId>>)
    requires Chain(store.View(), leaves, None) && KeySorted(Gather(leaves))
    requires start < |leaves| && firstPageId == leaves[start].page
    ensures r == Ok(MatchesFrom(leaves, start, key))
  {
    hide Gather, KeySorted, Matches;
    var leafPageId, rowIds: seq<RowId> := firstPageId, [];
    ghost var i := start;
    while true
      invariant i < |leaves| && leafPageId == leaves[i].page
      invariant MatchesFrom(leaves, start, key) == rowIds + MatchesFrom(leaves, i, key)
      decreases |leaves| - i
    {
      assert Linked(store.View(), leaves, i, None);
      var loaded := LoadNode(store, leafPageId);
      match loaded
      case Err(error) =>
        return Err(error);
      case Ok(Internal(_, _)) =>
        return Err(Corruption);
      case Ok(Leaf(nextLeaf, entries)) =>
        var more, stop := CollectMatches(entries, key);
        LeafRead(leaves, i, stop, key);
        assert rowIds + (more + MatchesFrom(leaves, i + 1, key)) == rowIds + more + MatchesFrom(leaves, i + 1, key);
        rowIds := rowIds + more;
        if stop < |entries| {
          return Ok(rowIds);
        }
        match nextLeaf
        case Some(nextPageId) =>
          leafPageId := nextPageId;
          i := i + 1;
        case None =>
          assert rowIds + MatchesFrom(leaves, i + 1, key) == rowIds;
          return Ok(rowIds);
    }
  }
}
