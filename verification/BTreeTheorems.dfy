/** What the B+Tree is for, over whole runs of inserts. */
module BTreeTheorems {
  import opened Core
  import opened IndexModel
  import opened BTreeModel
  import opened BTreeOrder
  import opened BTreeHeap
  import opened BTreeLookup

  /** Balanced with `h` levels above the leaves, and ordered. */
  ghost predicate WellFormed(t: Tree, h: nat) {
    Balanced(t, h, true) && Ordered(t)
  }

  function EmptyTree(root: PageId): Tree {
    LeafT(root, [])
  }

  lemma EmptyTreeWellFormed(root: PageId)
    ensures WellFormed(EmptyTree(root), 0) && Contents(EmptyTree(root)) == multiset{}
  {
    ContentsLeaf(root, []);
  }

  /** An insert keeps the structure, grows by at most a level, and adds exactly its entry. */
  lemma InsertRootKeeps(t: Tree, h: nat, e: IndexEntry, free: u64) returns (h': nat)
    requires WellFormed(t, h) && InsertRoot(t, e, free).Ok?
    ensures h <= h' <= h + 1
    ensures WellFormed(InsertRoot(t, e, free).value.tree, h')
    ensures Contents(InsertRoot(t, e, free).value.tree) == Contents(t) + multiset{e}
  {
    InsertBalanced(t, e, free, h, true);
    InsertOrdered(t, e, free);
    InsertContents(t, e, free);
    var g := Insert(t, e, free).value;
    JoinKeeps(g, h);
    h' := if g.split.Some? then h + 1 else h;
  }

  lemma JoinKeeps(g: Grown, h: nat)
    requires GrownBalanced(g, h, true) && GrownOrdered(g) && JoinRoot(g).Ok?
    ensures WellFormed(JoinRoot(g).value.tree, if g.split.Some? then h + 1 else h)
    ensures Contents(JoinRoot(g).value.tree) == GrownContents(g)
  {
    if g.split.Some? {
      var s := g.split.value;
      var kids := [g.left, s.right];
      assert AllOrdered(kids) && AllBalanced(kids, h) && Separated([s.separator], kids);
      ContentsPair(g.left, s.right);
    }
  }

  lemma ContentsPair(a: Tree, b: Tree)
    ensures ContentsOf([a, b]) == Contents(a) + Contents(b)
  {
    assert [a, b] == [a] + [b];
    ContentsConcat([a], [b]);
    ContentsSingle(a);
    ContentsSingle(b);
  }

  /** A run of inserts, following the returned roots. */
  function InsertAll(t: Tree, es: seq<IndexEntry>, free: u64): Result<Regrown>
    decreases |es|
  {
    if es == [] then Ok(Regrown(t, free))
    else
      var r :- InsertRoot(t, es[0], free);
      InsertAll(r.tree, es[1..], r.free)
  }

  lemma {:induction false} InsertAllKeeps(t: Tree, h: nat, es: seq<IndexEntry>, free: u64) returns (h': nat)
    requires WellFormed(t, h) && InsertAll(t, es, free).Ok?
    ensures WellFormed(InsertAll(t, es, free).value.tree, h')
    ensures Contents(InsertAll(t, es, free).value.tree) == Contents(t) + multiset(es)
    decreases es
  {
    if es == [] {
      h' := h;
    } else {
      var r := InsertRoot(t, es[0], free).value;
      var h1 := InsertRootKeeps(t, h, es[0], free);
      h' := InsertAllKeeps(r.tree, h1, es[1..], r.free);
      assert es == [es[0]] + es[1..];
    }
  }

  /** After any run of inserts into an empty root, a lookup returns each row id exactly as often as
  the pair was inserted, however many leaves its duplicates straddle. */
  lemma LookupFindsInserted(root: PageId, es: seq<IndexEntry>, free: u64, key: IndexKey, rowId: RowId)
    requires InsertAll(EmptyTree(root), es, free).Ok?
    ensures var t := InsertAll(EmptyTree(root), es, free).value.tree;
      multiset(Matches(Entries(t), key))[rowId] == multiset(es)[IndexEntry(key, rowId)]
  {
    EmptyTreeWellFormed(root);
    var h := InsertAllKeeps(EmptyTree(root), 0, es, free);
    MatchesCount(Entries(InsertAll(EmptyTree(root), es, free).value.tree), key, rowId);
  }

  // Height

  function Pow3(n: nat): nat {
    if n == 0 then 1 else 3 * Pow3(n - 1)
  }

  lemma {:induction false} NonRootSize(t: Tree, h: nat)
    requires Balanced(t, h, false)
    ensures |Entries(t)| >= 2 * Pow3(h)
    decreases t
  {
    match t
    case LeafT(page, entries) => GatherSingle(page, entries);
    case NodeT(_, _, kids) => AllSizes(kids, h - 1);
  }

  lemma {:induction false} AllSizes(kids: seq<Tree>, h: nat)
    requires AllBalanced(kids, h)
    ensures |Gather(LeavesOf(kids))| >= |kids| * (2 * Pow3(h))
    decreases kids
  {
    if kids != [] {
      NonRootSize(kids[0], h);
      AllSizes(kids[1..], h);
      GatherConcat(Leaves(kids[0]), LeavesOf(kids[1..]));
      assert |kids| * (2 * Pow3(h)) == 2 * Pow3(h) + |kids[1..]| * (2 * Pow3(h));
    }
  }

  /** A tree with `h` internal levels holds at least 4 * 3^(h-1) entries: height is logarithmic. */
  lemma HeightIsLogarithmic(t: Tree, h: nat)
    requires WellFormed(t, h) && h >= 1
    ensures |Contents(t)| >= 4 * Pow3(h - 1)
  {
    AllSizes(t.kids, h - 1);
    AtLeastTwice(|t.kids|, 2 * Pow3(h - 1));
  }

  lemma AtLeastTwice(n: nat, m: nat)
    requires n >= 2
    ensures n * m >= 2 * m
  {
    assert n * m == 2 * m + (n - 2) * m;
  }

  // Room

  /** Longest text key that always leaves room for a full leaf. */
  const SAFE_KEY_BYTES: nat := 996

  predicate Short(key: IndexKey) {
    KeyLen(key) <= 3 + SAFE_KEY_BYTES
  }

  ghost predicate ShortEntries(entries: seq<IndexEntry>) {
    forall i :: 0 <= i < |entries| ==> Short(entries[i].key)
  }

  ghost predicate ShortKeys(keys: seq<IndexKey>) {
    forall i :: 0 <= i < |keys| ==> Short(keys[i])
  }

  ghost predicate ShortTree(t: Tree)
    decreases t
  {
    match t
    case LeafT(_, entries) => ShortEntries(entries)
    case NodeT(_, keys, kids) => ShortKeys(keys) && AllShort(kids)
  }

  ghost predicate AllShort(kids: seq<Tree>)
    decreases kids
  {
    forall i :: 0 <= i < |kids| ==> ShortTree(kids[i])
  }

  ghost predicate GrownShort(g: Grown) {
    ShortTree(g.left) && (g.split.Some? ==> Short(g.split.value.separator) && ShortTree(g.split.value.right))
  }

  lemma {:induction false} ShortEntriesLen(entries: seq<IndexEntry>)
    requires ShortEntries(entries)
    ensures EntriesLen(entries) <= |entries| * (13 + SAFE_KEY_BYTES)
  {
    if entries != [] {
      ShortEntriesLen(entries[1..]);
    }
  }

  lemma {:induction false} ShortKeysLen(keys: seq<IndexKey>)
    requires ShortKeys(keys)
    ensures KeysLen(keys) <= |keys| * (3 + SAFE_KEY_BYTES)
  {
    if keys != [] {
      ShortKeysLen(keys[1..]);
    }
  }

  /** Four entries under text keys of `n` bytes fit a leaf exactly when `n` is at most 996. */
  lemma FullLeafFits(entries: seq<IndexEntry>, n: nat)
    requires |entries| == MAX_KEYS
    requires forall i :: 0 <= i < |entries| ==> entries[i].key.Text? && |entries[i].key.text| == n
    ensures Fits(Leaf(None, entries)) <==> n <= SAFE_KEY_BYTES
  {
    assert EntriesLen(entries) == 4 * (13 + n) by {
      assert entries[1..][1..] == entries[2..] && entries[2..][1..] == entries[3..] && entries[3..][1..] == [];
      assert EntriesLen(entries[3..]) == 13 + n;
      assert EntriesLen(entries[2..]) == 2 * (13 + n);
    }
  }

  lemma FinishLeafFits(page: PageId, entries: seq<IndexEntry>, free: u64)
    requires |entries| <= MAX_KEYS + 1 && ShortEntries(entries) && free < U64_MAX
    ensures FinishLeaf(page, entries, free).Ok?
    ensures var g := FinishLeaf(page, entries, free).value; g.free <= free + 1 && GrownShort(g)
  {
    var mid := |entries| / 2;
    ShortEntriesLen(entries);
    ShortEntriesLen(entries[..mid]);
    ShortEntriesLen(entries[mid..]);
  }

  lemma FinishNodeFits(page: PageId, keys: seq<IndexKey>, kids: seq<Tree>, free: u64)
    requires |kids| == |keys| + 1 && |keys| <= MAX_KEYS + 1 && ShortKeys(keys) && AllShort(kids) && free < U64_MAX
    ensures FinishNode(page, keys, kids, free).Ok?
    ensures var g := FinishNode(page, keys, kids, free).value; g.free <= free + 1 && GrownShort(g)
  {
    ShortKeysLen(keys);
    if |keys| > MAX_KEYS {
      var mid := |keys| / 2;
      ShortKeysLen(keys[..mid]);
      ShortKeysLen(keys[mid + 1..]);
      assert AllShort(kids[..mid + 1]) && AllShort(kids[mid + 1..]);
    }
  }

  lemma RegrowFits(page: PageId, keys: seq<IndexKey>, kids: seq<Tree>, i: nat, g: Grown)
    requires |kids| == |keys| + 1 && i <= |keys| <= MAX_KEYS
    requires ShortKeys(keys) && AllShort(kids) && GrownShort(g) && g.free < U64_MAX
    ensures Regrow(page, keys, kids, i, g).Ok?
    ensures var r := Regrow(page, keys, kids, i, g).value; r.free <= g.free + 1 && GrownShort(r)
  {
    match g.split
    case None =>
      assert AllShort(kids[i := g.left]);
    case Some(s) =>
      assert ShortKeys(GraftKeys(keys, i, s));
      assert AllShort(GraftKids(kids, i, g.left, s));
      FinishNodeFits(page, GraftKeys(keys, i, s), GraftKids(kids, i, g.left, s), g.free);
  }

  lemma {:induction false} InsertFits(t: Tree, h: nat, isRoot: bool, e: IndexEntry, free: u64)
    requires Balanced(t, h, isRoot) && ShortTree(t) && Short(e.key) && free + h < U64_MAX
    ensures Insert(t, e, free).Ok?
    ensures var g := Insert(t, e, free).value; g.free <= free + h + 1 && GrownShort(g)
    decreases t
  {
    match t
    case LeafT(page, entries) =>
      FinishLeafFits(page, InsertEntry(entries, e), free);
    case NodeT(page, keys, kids) =>
      var i := ChildIndex(keys, e.key);
      InsertFits(kids[i], h - 1, false, e, free);
      RegrowFits(page, keys, kids, i, Insert(kids[i], e, free).value);
  }

  /** While text keys stay within 996 bytes an insert can fail only for want of page ids. */
  lemma InsertRootFits(t: Tree, h: nat, e: IndexEntry, free: u64)
    requires WellFormed(t, h) && ShortTree(t) && Short(e.key) && free + h + 2 <= U64_MAX
    ensures InsertRoot(t, e, free).Ok?
    ensures var r := InsertRoot(t, e, free).value; r.free <= free + h + 2 && ShortTree(r.tree)
  {
    InsertFits(t, h, true, e, free);
    var g := Insert(t, e, free).value;
    if g.split.Some? {
      var s := g.split.value;
      ShortKeysLen([s.separator]);
      assert AllShort([g.left, s.right]);
    }
  }

  /** On a well-formed tree the only error is User: no room for a node or no page id. */
  lemma {:induction false} InsertErrorIsUser(t: Tree, h: nat, isRoot: bool, e: IndexEntry, free: u64)
    requires Balanced(t, h, isRoot) && Insert(t, e, free).Err?
    ensures Insert(t, e, free) == Err(User)
    decreases t
  {
    if t.NodeT? {
      var i := ChildIndex(t.keys, e.key);
      if Insert(t.kids[i], e, free).Err? {
        InsertErrorIsUser(t.kids[i], h - 1, false, e, free);
      }
    }
  }
}
