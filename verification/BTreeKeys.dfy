/** Separators are copies of stored keys, and stay so: nothing is ever deleted. */
module BTreeKeys {
  import opened Core
  import opened IndexModel
  import opened BTreeModel
  import opened BTreeTheorems

  /** Every entry's key and every separator is one of `keys`. */
  ghost predicate KeysIn(t: Tree, keys: iset<IndexKey>)
    decreases t
  {
    match t
    case LeafT(_, entries) => EntriesIn(entries, keys)
    case NodeT(_, separators, kids) => SeparatorsIn(separators, keys) && AllKeysIn(kids, keys)
  }

  ghost predicate AllKeysIn(kids: seq<Tree>, keys: iset<IndexKey>)
    decreases kids
  {
    forall i :: 0 <= i < |kids| ==> KeysIn(kids[i], keys)
  }

  ghost predicate EntriesIn(entries: seq<IndexEntry>, keys: iset<IndexKey>) {
    forall i :: 0 <= i < |entries| ==> entries[i].key in keys
  }

  ghost predicate SeparatorsIn(separators: seq<IndexKey>, keys: iset<IndexKey>) {
    forall i :: 0 <= i < |separators| ==> separators[i] in keys
  }

  ghost predicate GrownIn(g: Grown, keys: iset<IndexKey>) {
    KeysIn(g.left, keys) && (g.split.Some? ==> g.split.value.separator in keys && KeysIn(g.split.value.right, keys))
  }

  /** The keys a tree stores. */
  ghost function StoredKeys(t: Tree): iset<IndexKey> {
    iset e | e in Contents(t) :: e.key
  }

  ghost predicate KeysStored(t: Tree) {
    KeysIn(t, StoredKeys(t))
  }

  lemma {:induction false} KeysInMore(t: Tree, a: iset<IndexKey>, b: iset<IndexKey>)
    requires KeysIn(t, a) && a <= b
    ensures KeysIn(t, b)
    decreases t
  {
    if t.NodeT? {
      forall i | 0 <= i < |t.kids| ensures KeysIn(t.kids[i], b) {
        KeysInMore(t.kids[i], a, b);
      }
    }
  }

  lemma FinishNodeIn(page: PageId, separators: seq<IndexKey>, kids: seq<Tree>, free: u64, keys: iset<IndexKey>)
    requires |kids| == |separators| + 1 && SeparatorsIn(separators, keys) && AllKeysIn(kids, keys)
    requires FinishNode(page, separators, kids, free).Ok?
    ensures GrownIn(FinishNode(page, separators, kids, free).value, keys)
  {
    hide Fits;
    var mid := |separators| / 2;
    assert AllKeysIn(kids[..mid + 1], keys) && AllKeysIn(kids[mid + 1..], keys);
  }

  lemma RegrowIn(page: PageId, separators: seq<IndexKey>, kids: seq<Tree>, i: nat, g: Grown, keys: iset<IndexKey>)
    requires |kids| == |separators| + 1 && i <= |separators| && SeparatorsIn(separators, keys) && AllKeysIn(kids, keys)
    requires GrownIn(g, keys) && Regrow(page, separators, kids, i, g).Ok?
    ensures GrownIn(Regrow(page, separators, kids, i, g).value, keys)
  {
    hide FinishNode;
    match g.split
    case None =>
      assert AllKeysIn(kids[i := g.left], keys);
    case Some(s) =>
      assert SeparatorsIn(GraftKeys(separators, i, s), keys);
      assert AllKeysIn(GraftKids(kids, i, g.left, s), keys);
      FinishNodeIn(page, GraftKeys(separators, i, s), GraftKids(kids, i, g.left, s), g.free, keys);
  }

  /** An insert puts no key into the tree but its own. */
  lemma {:induction false} InsertIn(t: Tree, e: IndexEntry, free: u64, keys: iset<IndexKey>)
    requires KeysIn(t, keys) && e.key in keys && Insert(t, e, free).Ok?
    ensures GrownIn(Insert(t, e, free).value, keys)
    decreases t
  {
    hide Fits;
    match t
    case LeafT(page, entries) =>
      var all := InsertEntry(entries, e);
      assert EntriesIn(all, keys);
      var mid := |all| / 2;
      assert EntriesIn(all[..mid], keys) && EntriesIn(all[mid..], keys);
    case NodeT(page, separators, kids) =>
      var i := ChildIndex(separators, e.key);
      InsertIn(kids[i], e, free, keys);
      RegrowIn(page, separators, kids, i, Insert(kids[i], e, free).value, keys);
  }

  lemma EmptyKeysStored(root: PageId)
    ensures KeysStored(EmptyTree(root))
  {
  }

  lemma InsertKeysStored(t: Tree, h: nat, e: IndexEntry, free: u64)
    requires WellFormed(t, h) && KeysStored(t) && InsertRoot(t, e, free).Ok?
    ensures KeysStored(InsertRoot(t, e, free).value.tree)
  {
    hide Contents, Insert, Fits;
    var grown := InsertRoot(t, e, free).value.tree;
    var h' := InsertRootKeeps(t, h, e, free);
    var keys := StoredKeys(grown);
    assert e in Contents(grown);
    KeysInMore(t, StoredKeys(t), keys);
    InsertIn(t, e, free, keys);
    var g := Insert(t, e, free).value;
    if g.split.Some? {
      assert SeparatorsIn([g.split.value.separator], keys) && AllKeysIn([g.left, g.split.value.right], keys);
    }
  }

  lemma {:induction false} KeysInShort(t: Tree, keys: iset<IndexKey>)
    requires KeysIn(t, keys) && forall key :: key in keys ==> Short(key)
    ensures ShortTree(t)
    decreases t
  {
    hide Short;
    if t.NodeT? {
      forall i | 0 <= i < |t.kids| ensures ShortTree(t.kids[i]) {
        KeysInShort(t.kids[i], keys);
      }
    }
  }

  /** A tree whose entries have short keys has short separators. */
  lemma ShortEntriesShortTree(t: Tree)
    requires KeysStored(t) && forall e :: e in Contents(t) ==> Short(e.key)
    ensures ShortTree(t)
  {
    hide Short, Contents;
    KeysInShort(t, StoredKeys(t));
  }
}
