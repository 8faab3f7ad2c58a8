/** The B+Tree as a value: the shape a set of pages spells out, and what one insert does to it. */
module BTreeModel {
  import opened Core
  import opened IndexModel

  /** Bytes one record may take in an empty page: 4096 less the 34-byte header and one 6-byte slot. */
  const NODE_CAPACITY: nat := 4056

  function KeyLen(key: IndexKey): nat {
    match key
    case Integer(_) => 9
    case Text(text) => 3 + |text|
  }

  function KeysLen(keys: seq<IndexKey>): nat {
    if keys == [] then 0 else KeyLen(keys[0]) + KeysLen(keys[1..])
  }

  function EntriesLen(entries: seq<IndexEntry>): nat {
    if entries == [] then 0 else KeyLen(entries[0].key) + 10 + EntriesLen(entries[1..])
  }

  /** Encoded size of a node record. */
  function NodeLen(node: Node): nat {
    match node
    case Leaf(_, entries) => 18 + EntriesLen(entries)
    case Internal(keys, children) => 11 + KeysLen(keys) + 8 * |children|
  }

  predicate Fits(node: Node) {
    NodeLen(node) <= NODE_CAPACITY
  }

  datatype Tree =
    | LeafT(page: PageId, entries: seq<IndexEntry>)
    | NodeT(page: PageId, keys: seq<IndexKey>, kids: seq<Tree>)

  function Roots(kids: seq<Tree>): (r: seq<PageId>)
    ensures |r| == |kids| && forall i :: 0 <= i < |kids| ==> r[i] == kids[i].page
  {
    seq(|kids|, i requires 0 <= i < |kids| => kids[i].page)
  }

  datatype LeafPage = LeafPage(page: PageId, entries: seq<IndexEntry>)

  /** The in-order leaves. */
  function Leaves(t: Tree): seq<LeafPage>
    decreases t
  {
    match t
    case LeafT(page, entries) => [LeafPage(page, entries)]
    case NodeT(_, _, kids) => LeavesOf(kids)
  }

  function LeavesOf(kids: seq<Tree>): seq<LeafPage>
    decreases kids
  {
    if kids == [] then [] else Leaves(kids[0]) + LeavesOf(kids[1..])
  }

  /** The entries of a run of leaves, left to right. */
  function Gather(leaves: seq<LeafPage>): seq<IndexEntry> {
    if leaves == [] then [] else leaves[0].entries + Gather(leaves[1..])
  }

  function Entries(t: Tree): seq<IndexEntry> {
    Gather(Leaves(t))
  }

  /** What the tree stores, forgetting every order. */
  function Contents(t: Tree): multiset<IndexEntry> {
    multiset(Entries(t))
  }

  function FirstLeaf(t: Tree): PageId {
    match t
    case LeafT(page, _) => page
    case NodeT(page, _, kids) => if kids == [] then page else FirstLeaf(kids[0])
  }

  // Structure: shape, occupancy and uniform depth; order; distinct pages

  /** Height `h`; at most MAX_KEYS entries or keys everywhere, at least two except in the root. */
  ghost predicate Balanced(t: Tree, h: nat, isRoot: bool)
    decreases t
  {
    match t
    case LeafT(_, entries) =>
      h == 0 && |entries| <= MAX_KEYS && (isRoot || 2 <= |entries|)
    case NodeT(_, keys, kids) =>
      && h > 0
      && |kids| == |keys| + 1
      && (if isRoot then 1 else 2) <= |keys| <= MAX_KEYS
      && AllBalanced(kids, h - 1)
  }

  ghost predicate AllBalanced(kids: seq<Tree>, h: nat)
    decreases kids
  {
    forall i :: 0 <= i < |kids| ==> Balanced(kids[i], h, false)
  }

  /** No entry and no separator above `k`. */
  ghost predicate Below(t: Tree, k: IndexKey)
    decreases t
  {
    match t
    case LeafT(_, entries) => forall i :: 0 <= i < |entries| ==> KeyLe(entries[i].key, k)
    case NodeT(_, keys, kids) => KeysBelow(keys, k) && AllBelow(kids, k)
  }

  ghost predicate AllBelow(kids: seq<Tree>, k: IndexKey)
    decreases kids
  {
    forall i :: 0 <= i < |kids| ==> Below(kids[i], k)
  }

  ghost predicate KeysBelow(keys: seq<IndexKey>, k: IndexKey) {
    forall i :: 0 <= i < |keys| ==> KeyLe(keys[i], k)
  }

  /** No entry and no separator below `k`. */
  ghost predicate Above(t: Tree, k: IndexKey)
    decreases t
  {
    match t
    case LeafT(_, entries) => forall i :: 0 <= i < |entries| ==> KeyLe(k, entries[i].key)
    case NodeT(_, keys, kids) => KeysAbove(keys, k) && AllAbove(kids, k)
  }

  ghost predicate AllAbove(kids: seq<Tree>, k: IndexKey)
    decreases kids
  {
    forall i :: 0 <= i < |kids| ==> Above(kids[i], k)
  }

  ghost predicate KeysAbove(keys: seq<IndexKey>, k: IndexKey) {
    forall i :: 0 <= i < |keys| ==> KeyLe(k, keys[i])
  }

  ghost predicate Ordered(t: Tree)
    decreases t
  {
    match t
    case LeafT(_, entries) => SortedEntries(entries)
    case NodeT(_, keys, kids) => SortedKeys(keys) && AllOrdered(kids) && Separated(keys, kids)
  }

  ghost predicate AllOrdered(kids: seq<Tree>)
    decreases kids
  {
    forall i :: 0 <= i < |kids| ==> Ordered(kids[i])
  }

  /** A separator bounds the child at its left from above and the child at its right from below. */
  ghost predicate Separated(keys: seq<IndexKey>, kids: seq<Tree>) {
    && (forall i :: 0 <= i < |kids| && i < |keys| ==> Below(kids[i], keys[i]))
    && (forall i :: 0 < i < |kids| && i <= |keys| ==> Above(kids[i], keys[i - 1]))
  }

  ghost function Pages(t: Tree): set<PageId>
    decreases t
  {
    match t
    case LeafT(page, _) => {page}
    case NodeT(page, _, kids) => {page} + PagesOf(kids)
  }

  ghost function PagesOf(kids: seq<Tree>): set<PageId>
    decreases kids
  {
    if kids == [] then {} else Pages(kids[0]) + PagesOf(kids[1..])
  }

  /** No page occurs twice in the tree. */
  ghost predicate Distinct(t: Tree) {
    match t
    case LeafT(_, _) => true
    case NodeT(page, _, kids) =>
      && (forall i :: 0 <= i < |kids| ==> Distinct(kids[i]) && page !in Pages(kids[i]))
      && (forall i, j :: 0 <= i < j < |kids| ==> Pages(kids[i]) !! Pages(kids[j]))
  }

  // Insert

  datatype Split = Split(separator: IndexKey, right: Tree)

  /** Result of an insert below the root: the subtree in place, what it split off, the next free page id. */
  datatype Grown = Grown(left: Tree, split: Option<Split>, free: u64)

  /** Entries less than `e`, which all come first in a sorted run. */
  function Position(entries: seq<IndexEntry>, e: IndexEntry): (p: nat)
    ensures p <= |entries|
  {
    if entries == [] || !EntryLess(entries[0], e) then 0 else 1 + Position(entries[1..], e)
  }

  function InsertEntry(entries: seq<IndexEntry>, e: IndexEntry): seq<IndexEntry> {
    var p := Position(entries, e);
    entries[..p] + [e] + entries[p..]
  }

  /** Separators less than `key`: the leftmost child that may hold it. */
  function ChildIndex(keys: seq<IndexKey>, key: IndexKey): (p: nat)
    ensures p <= |keys|
  {
    if keys == [] || !KeyLess(keys[0], key) then 0 else 1 + ChildIndex(keys[1..], key)
  }

  function Allocate(free: u64): Result<u64> {
    if free == U64_MAX then Err(User) else Ok(free + 1)
  }

  function FinishLeaf(page: PageId, entries: seq<IndexEntry>, free: u64): Result<Grown> {
    if |entries| <= MAX_KEYS then
      if Fits(Leaf(None, entries)) then Ok(Grown(LeafT(page, entries), None, free)) else Err(User)
    else
      var next :- Allocate(free);
      var mid := |entries| / 2;
      if Fits(Leaf(None, entries[..mid])) && Fits(Leaf(None, entries[mid..])) then
        Ok(Grown(LeafT(page, entries[..mid]), Some(Split(entries[mid].key, LeafT(free, entries[mid..]))), next))
      else Err(User)
  }

  function FinishNode(page: PageId, keys: seq<IndexKey>, kids: seq<Tree>, free: u64): Result<Grown>
    requires |kids| == |keys| + 1
  {
    if |keys| <= MAX_KEYS then
      if Fits(Internal(keys, Roots(kids))) then Ok(Grown(NodeT(page, keys, kids), None, free)) else Err(User)
    else
      var next :- Allocate(free);
      var mid := |keys| / 2;
      var left := NodeT(page, keys[..mid], kids[..mid + 1]);
      var right := NodeT(free, keys[mid + 1..], kids[mid + 1..]);
      if Fits(Internal(left.keys, Roots(left.kids))) && Fits(Internal(right.keys, Roots(right.kids))) then
        Ok(Grown(left, Some(Split(keys[mid], right)), next))
      else Err(User)
  }

  function GraftKeys(keys: seq<IndexKey>, i: nat, s: Split): seq<IndexKey>
    requires i <= |keys|
  {
    keys[..i] + [s.separator] + keys[i..]
  }

  function GraftKids(kids: seq<Tree>, i: nat, left: Tree, s: Split): seq<Tree>
    requires i < |kids|
  {
    kids[..i] + [left, s.right] + kids[i + 1..]
  }

  /** A node whose child `i` has become `g`. */
  function Regrow(page: PageId, keys: seq<IndexKey>, kids: seq<Tree>, i: nat, g: Grown): Result<Grown>
    requires |kids| == |keys| + 1 && i <= |keys|
  {
    match g.split
    case None => Ok(Grown(NodeT(page, keys, kids[i := g.left]), None, g.free))
    case Some(s) => FinishNode(page, GraftKeys(keys, i, s), GraftKids(kids, i, g.left, s), g.free)
  }

  function Insert(t: Tree, e: IndexEntry, free: u64): Result<Grown> {
    match t
    case LeafT(page, entries) => FinishLeaf(page, InsertEntry(entries, e), free)
    case NodeT(page, keys, kids) =>
      if |kids| != |keys| + 1 then Err(Corruption) else
        var i := ChildIndex(keys, e.key);
        var g :- Insert(kids[i], e, free);
        Regrow(page, keys, kids, i, g)
  }

  datatype Regrown = Regrown(tree: Tree, free: u64)

  /** A root that split gets a root above its halves. */
  function JoinRoot(g: Grown): Result<Regrown> {
    match g.split
    case None => Ok(Regrown(g.left, g.free))
    case Some(s) =>
      var next :- Allocate(g.free);
      if Fits(Internal([s.separator], [g.left.page, s.right.page]))
      then Ok(Regrown(NodeT(g.free, [s.separator], [g.left, s.right]), next))
      else Err(User)
  }

  function InsertRoot(t: Tree, e: IndexEntry, free: u64): Result<Regrown> {
    var g :- Insert(t, e, free);
    JoinRoot(g)
  }
}
