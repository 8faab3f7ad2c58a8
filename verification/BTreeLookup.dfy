/** Why walking the leaf chain from one leaf finds every equal key. */
module BTreeLookup {
  import opened Core
  import opened IndexModel
  import opened PageModel
  import opened BTreeModel
  import opened BTreeOrder
  import opened BTreeHeap

  /** Row ids stored under `key`, in entry order. */
  function Matches(entries: seq<IndexEntry>, key: IndexKey): seq<RowId> {
    if entries == [] then []
    else (if entries[0].key == key then [entries[0].rowId] else []) + Matches(entries[1..], key)
  }

  lemma {:induction false} MatchesConcat(a: seq<IndexEntry>, b: seq<IndexEntry>, key: IndexKey)
    ensures Matches(a + b, key) == Matches(a, key) + Matches(b, key)
  {
    if a == [] {
      assert a + b == b;
    } else {
      MatchesConcat(a[1..], b, key);
      assert (a + b)[0] == a[0] && (a + b)[1..] == a[1..] + b;
      var head, tail := if a[0].key == key then [a[0].rowId] else [], Matches(a[1..], key);
      assert head + (tail + Matches(b, key)) == head + tail + Matches(b, key);
    }
  }

  lemma {:induction false} MatchesNone(entries: seq<IndexEntry>, key: IndexKey)
    requires forall i :: 0 <= i < |entries| ==> entries[i].key != key
    ensures Matches(entries, key) == []
  {
    if entries != [] {
      MatchesNone(entries[1..], key);
    }
  }

  /** A lookup result holds a row id as often as the index holds the pair. */
  lemma {:induction false} MatchesCount(entries: seq<IndexEntry>, key: IndexKey, rowId: RowId)
    ensures multiset(Matches(entries, key))[rowId] == multiset(entries)[IndexEntry(key, rowId)]
  {
    if entries != [] {
      MatchesCount(entries[1..], key, rowId);
      assert entries == [entries[0]] + entries[1..];
    }
  }

  // The chain

  /** Each leaf page of the run links to the next, and the last to `next`. */
  ghost predicate Chain(m: PageMap, leaves: seq<LeafPage>, next: Option<PageId>) {
    forall i :: 0 <= i < |leaves| ==> Linked(m, leaves, i, next)
  }

  ghost predicate Linked(m: PageMap, leaves: seq<LeafPage>, i: nat, next: Option<PageId>)
    requires i < |leaves|
  {
    var leaf := leaves[i];
    leaf.page in m && m[leaf.page] == IndexPage(leaf.page, Leaf(LinkAt(leaves, i, next), leaf.entries))
  }

  function LinkAt(leaves: seq<LeafPage>, i: nat, next: Option<PageId>): Option<PageId>
    requires i < |leaves|
  {
    if i + 1 < |leaves| then Some(leaves[i + 1].page) else next
  }

  lemma {:induction false} HoldsChain(m: PageMap, t: Tree, next: Option<PageId>, h: nat, isRoot: bool)
    requires Holds(m, t, next) && Balanced(t, h, isRoot)
    ensures Leaves(t) != [] && Leaves(t)[0].page == FirstLeaf(t)
    ensures Chain(m, Leaves(t), next)
    decreases t
  {
    if t.NodeT? {
      HoldsAllChain(m, t.kids, next, h - 1);
    }
  }

  lemma {:induction false} HoldsAllChain(m: PageMap, kids: seq<Tree>, next: Option<PageId>, h: nat)
    requires kids != [] && HoldsAll(m, kids, next) && AllBalanced(kids, h)
    ensures LeavesOf(kids) != [] && LeavesOf(kids)[0].page == FirstLeaf(kids[0])
    ensures Chain(m, LeavesOf(kids), next)
    decreases kids
  {
    var rest := kids[1..];
    assert Holds(m, kids[0], NextOf(kids, 0, next));
    HoldsChain(m, kids[0], NextOf(kids, 0, next), h, false);
    if rest != [] {
      forall i | 0 <= i < |rest| ensures Holds(m, rest[i], NextOf(rest, i, next)) {
        assert rest[i] == kids[i + 1] && NextOf(rest, i, next) == NextOf(kids, i + 1, next);
      }
      HoldsAllChain(m, rest, next, h);
      ChainConcat(m, Leaves(kids[0]), LeavesOf(rest), next);
    } else {
      assert LeavesOf(kids) == Leaves(kids[0]);
    }
  }

  lemma ChainConcat(m: PageMap, a: seq<LeafPage>, b: seq<LeafPage>, next: Option<PageId>)
    requires b != [] && Chain(m, a, Some(b[0].page)) && Chain(m, b, next)
    ensures Chain(m, a + b, next)
  {
    var all := a + b;
    forall i | 0 <= i < |all| ensures Linked(m, all, i, next) {
      if i < |a| {
        assert Linked(m, a, i, Some(b[0].page)) && LinkAt(all, i, next) == LinkAt(a, i, Some(b[0].page));
      } else {
        assert Linked(m, b, i - |a|, next) && LinkAt(all, i, next) == LinkAt(b, i - |a|, next);
      }
    }
  }

  // Order along the chain

  ghost predicate KeySorted(entries: seq<IndexEntry>) {
    forall i, j :: 0 <= i < j < |entries| ==> KeyLe(entries[i].key, entries[j].key)
  }

  ghost predicate EntriesBelow(entries: seq<IndexEntry>, k: IndexKey) {
    forall i :: 0 <= i < |entries| ==> KeyLe(entries[i].key, k)
  }

  ghost predicate EntriesAbove(entries: seq<IndexEntry>, k: IndexKey) {
    forall i :: 0 <= i < |entries| ==> KeyLe(k, entries[i].key)
  }

  lemma GatherSingle(page: PageId, entries: seq<IndexEntry>)
    ensures Gather([LeafPage(page, entries)]) == entries
  {
    assert Gather([LeafPage(page, entries)]) == entries + Gather([]);
  }

  lemma {:induction false} BelowEntries(t: Tree, k: IndexKey)
    requires Below(t, k)
    ensures EntriesBelow(Entries(t), k)
    decreases t
  {
    match t
    case LeafT(page, entries) => GatherSingle(page, entries);
    case NodeT(_, _, kids) => AllBelowEntries(kids, k);
  }

  lemma {:induction false} AllBelowEntries(kids: seq<Tree>, k: IndexKey)
    requires AllBelow(kids, k)
    ensures EntriesBelow(Gather(LeavesOf(kids)), k)
    decreases kids
  {
    if kids != [] {
      BelowEntries(kids[0], k);
      AllBelowEntries(kids[1..], k);
      GatherConcat(Leaves(kids[0]), LeavesOf(kids[1..]));
    }
  }

  lemma {:induction false} AboveEntries(t: Tree, k: IndexKey)
    requires Above(t, k)
    ensures EntriesAbove(Entries(t), k)
    decreases t
  {
    match t
    case LeafT(page, entries) => GatherSingle(page, entries);
    case NodeT(_, _, kids) => AllAboveEntries(kids, k);
  }

  lemma {:induction false} AllAboveEntries(kids: seq<Tree>, k: IndexKey)
    requires AllAbove(kids, k)
    ensures EntriesAbove(Gather(LeavesOf(kids)), k)
    decreases kids
  {
    if kids != [] {
      AboveEntries(kids[0], k);
      AllAboveEntries(kids[1..], k);
      GatherConcat(Leaves(kids[0]), LeavesOf(kids[1..]));
    }
  }

  lemma KeySortedConcat(a: seq<IndexEntry>, k: IndexKey, b: seq<IndexEntry>)
    requires KeySorted(a) && EntriesBelow(a, k) && EntriesAbove(b, k) && KeySorted(b)
    ensures KeySorted(a + b)
  {
    forall i, j | 0 <= i < |a| && 0 <= j < |b| ensures KeyLe(a[i].key, b[j].key) {
      KeyTransitive(a[i].key, k, b[j].key);
    }
  }

  /** The leaves read left to right are ordered by key. */
  lemma {:induction false} OrderedEntries(t: Tree, h: nat, isRoot: bool)
    requires Ordered(t) && Balanced(t, h, isRoot)
    ensures KeySorted(Entries(t))
    decreases t
  {
    match t
    case LeafT(page, entries) =>
      GatherSingle(page, entries);
      forall i, j | 0 <= i < j < |entries| ensures KeyLe(entries[i].key, entries[j].key) {
        assert EntryLe(entries[i], entries[j]);
        KeyTrichotomy(entries[i].key, entries[j].key);
      }
    case NodeT(_, keys, kids) =>
      AllOrderedEntries(keys, kids, h - 1);
  }

  lemma {:induction false} AllOrderedEntries(keys: seq<IndexKey>, kids: seq<Tree>, h: nat)
    requires |kids| == |keys| + 1
    requires SortedKeys(keys) && AllOrdered(kids) && Separated(keys, kids) && AllBalanced(kids, h)
    ensures KeySorted(Gather(LeavesOf(kids)))
    decreases kids
  {
    OrderedEntries(kids[0], h, false);
    GatherConcat(Leaves(kids[0]), LeavesOf(kids[1..]));
    if keys == [] {
      assert LeavesOf(kids[1..]) == [];
    } else {
      SeparatedHalves(keys, kids, 0);
      AllAboveSeparator(keys, kids, 0);
      AllOrderedEntries(keys[1..], kids[1..], h);
      BelowEntries(kids[0], keys[0]);
      AllAboveEntries(kids[1..], keys[0]);
      KeySortedConcat(Entries(kids[0]), keys[0], Gather(LeavesOf(kids[1..])));
    }
  }

  /** Leaves left of the child a search takes hold only lesser keys. */
  ghost predicate AllLess(leaves: seq<LeafPage>, key: IndexKey) {
    forall e :: e in Gather(leaves) ==> KeyLess(e.key, key)
  }

  lemma LeftOfChild(keys: seq<IndexKey>, kids: seq<Tree>, key: IndexKey)
    requires |kids| == |keys| + 1 && SortedKeys(keys) && Separated(keys, kids)
    ensures AllLess(LeavesOf(kids[..ChildIndex(keys, key)]), key)
  {
    var i := ChildIndex(keys, key);
    ChildIndexSplits(keys, key);
    if i > 0 {
      AllBelowSeparator(keys, kids, i - 1);
      AllBelowEntries(kids[..i], keys[i - 1]);
      var es := Gather(LeavesOf(kids[..i]));
      forall e | e in es ensures KeyLess(e.key, key) {
        KeyTransitive(e.key, keys[i - 1], key);
      }
    }
  }

  ghost predicate AllAtLeast(leaves: seq<LeafPage>, key: IndexKey) {
    forall e :: e in Gather(leaves) ==> KeyLe(key, e.key)
  }

  lemma RightOfChild(keys: seq<IndexKey>, kids: seq<Tree>, key: IndexKey)
    requires |kids| == |keys| + 1 && SortedKeys(keys) && Separated(keys, kids)
    ensures AllAtLeast(LeavesOf(kids[ChildIndex(keys, key) + 1..]), key)
  {
    var i := ChildIndex(keys, key);
    ChildIndexSplits(keys, key);
    if i < |keys| {
      AllAboveSeparator(keys, kids, i);
      AllAboveEntries(kids[i + 1..], keys[i]);
      var es := Gather(LeavesOf(kids[i + 1..]));
      forall e | e in es ensures KeyLe(key, e.key) {
        KeyTransitive(key, keys[i], e.key);
      }
    }
  }

  lemma NoLeaves(key: IndexKey)
    ensures AllLess([], key) && AllAtLeast([], key)
  {
  }

  /** A search for `key` may start at leaf `i`: everything before it is smaller and nothing after it is. */
  ghost predicate StartsAt(leaves: seq<LeafPage>, key: IndexKey, i: nat) {
    i < |leaves| && AllLess(leaves[..i], key) && AllAtLeast(leaves[i + 1..], key)
  }

  /** `page` is that leaf's page. */
  ghost predicate StartPage(leaves: seq<LeafPage>, key: IndexKey, page: PageId) {
    exists i: nat :: StartsAt(leaves, key, i) && leaves[i].page == page
  }

  /** The leaves of a node, seen from its child `i`. */
  lemma LeavesAround(kids: seq<Tree>, i: nat)
    requires i < |kids|
    ensures LeavesOf(kids) == LeavesOf(kids[..i]) + Leaves(kids[i]) + LeavesOf(kids[i + 1..])
  {
    assert kids == kids[..i] + kids[i..];
    LeavesOfConcat(kids[..i], kids[i..]);
    assert kids[i..][1..] == kids[i + 1..];
  }

  /** Once a key above the one sought is met, nothing further down the chain matches. */
  lemma NoMatchAfter(done: seq<IndexEntry>, rest: seq<IndexEntry>, key: IndexKey)
    requires KeySorted(done + rest) && rest != [] && KeyLess(key, rest[0].key)
    ensures Matches(rest, key) == []
  {
    var all := done + rest;
    forall i | 0 <= i < |rest| ensures rest[i].key != key {
      KeyTrichotomy(rest[0].key, key);
      KeyTrichotomy(rest[i].key, key);
      assert rest[0] == all[|done|] && rest[i] == all[|done| + i];
      KeyTransitive(key, rest[0].key, rest[i].key);
    }
    MatchesNone(rest, key);
  }

  /** What a search still has to find from leaf `i` on. */
  ghost function MatchesFrom(leaves: seq<LeafPage>, i: nat, key: IndexKey): seq<RowId>
    requires i <= |leaves|
  {
    Matches(Gather(leaves[i..]), key)
  }

  lemma StartOfMatches(leaves: seq<LeafPage>, i: nat, key: IndexKey)
    requires i <= |leaves| && AllLess(leaves[..i], key)
    ensures Matches(Gather(leaves), key) == MatchesFrom(leaves, i, key)
  {
    assert leaves == leaves[..i] + leaves[i..];
    GatherConcat(leaves[..i], leaves[i..]);
    MatchesConcat(Gather(leaves[..i]), Gather(leaves[i..]), key);
    forall e | e in Gather(leaves[..i]) ensures e.key != key {
      KeyTrichotomy(e.key, key);
    }
    MatchesNone(Gather(leaves[..i]), key);
  }

  lemma LeafSteps(leaves: seq<LeafPage>, i: nat)
    requires i < |leaves|
    ensures Gather(leaves[i..]) == leaves[i].entries + Gather(leaves[i + 1..])
    ensures Gather(leaves) == Gather(leaves[..i]) + (leaves[i].entries + Gather(leaves[i + 1..]))
  {
    assert leaves == leaves[..i] + leaves[i..];
    GatherConcat(leaves[..i], leaves[i..]);
    assert leaves[i..][1..] == leaves[i + 1..];
  }

  lemma Regroup(a: seq<LeafPage>, b: seq<LeafPage>, c: seq<LeafPage>, d: seq<LeafPage>, e: seq<LeafPage>)
    ensures a + (b + c + d) + e == (a + b) + c + (d + e)
  {
  }

  /** One step of a descent: where the child lies, and what is now known to be left of it. */
  lemma DescendStep(
      m: PageMap, t: Tree, h: nat, isRoot: bool, link: Option<PageId>, key: IndexKey, before: seq<LeafPage>,
      after: seq<LeafPage>)
    returns (left: seq<LeafPage>, right: seq<LeafPage>)
    requires t.NodeT? && Holds(m, t, link) && Balanced(t, h, isRoot) && Ordered(t)
    requires AllLess(before, key) && AllAtLeast(after, key)
    ensures var i := ChildIndex(t.keys, key);
      && h > 0
      && Holds(m, t.kids[i], NextOf(t.kids, i, link)) && Balanced(t.kids[i], h - 1, false) && Ordered(t.kids[i])
      && before + Leaves(t) + after == left + Leaves(t.kids[i]) + right
      && AllLess(left, key) && AllAtLeast(right, key)
  {
    var i := ChildIndex(t.keys, key);
    var a, mid, b := LeavesOf(t.kids[..i]), Leaves(t.kids[i]), LeavesOf(t.kids[i + 1..]);
    left, right := before + a, b + after;
    LeavesAround(t.kids, i);
    Regroup(before, a, mid, b, after);
    LeftOfChild(t.keys, t.kids, key);
    RightOfChild(t.keys, t.kids, key);
    GatherConcat(before, a);
    GatherConcat(b, after);
    assert HoldsAll(m, t.kids, link) && AllBalanced(t.kids, h - 1) && AllOrdered(t.kids);
  }

  lemma LeafIndex(before: seq<LeafPage>, leaf: LeafPage, after: seq<LeafPage>)
    ensures var all := before + [leaf] + after;
      all[|before|] == leaf && all[..|before|] == before && all[|before| + 1..] == after
  {
  }

  /** What the part of a leaf read so far tells of the whole search. */
  lemma LeafRead(leaves: seq<LeafPage>, i: nat, stop: nat, key: IndexKey)
    requires i < |leaves| && stop <= |leaves[i].entries| && KeySorted(Gather(leaves))
    ensures var es := leaves[i].entries;
      && (stop == |es| ==> MatchesFrom(leaves, i, key) == Matches(es[..stop], key) + MatchesFrom(leaves, i + 1, key))
      && (stop < |es| && KeyLess(key, es[stop].key) ==> MatchesFrom(leaves, i, key) == Matches(es[..stop], key))
    ensures i + 1 == |leaves| ==> MatchesFrom(leaves, i + 1, key) == []
  {
    LeafSteps(leaves, i);
    var es, rest := leaves[i].entries, Gather(leaves[i + 1..]);
    var tail := es[stop..] + rest;
    assert es + rest == es[..stop] + tail;
    MatchesConcat(es[..stop], tail, key);
    assert stop == |es| ==> tail == rest;
    if stop < |es| && KeyLess(key, es[stop].key) {
      var done := Gather(leaves[..i]) + es[..stop];
      assert Gather(leaves) == done + tail;
      NoMatchAfter(done, tail, key);
    }
  }
}
