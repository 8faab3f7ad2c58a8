/** An insert keeps the tree balanced and ordered, and adds exactly one entry. */
module BTreeOrder {
  import opened Core
  import opened IndexModel
  import opened BTreeModel

  // Positions

  lemma {:induction false} PositionSplits(entries: seq<IndexEntry>, e: IndexEntry)
    requires SortedEntries(entries)
    ensures forall i :: 0 <= i < Position(entries, e) ==> EntryLess(entries[i], e)
    ensures forall i :: Position(entries, e) <= i < |entries| ==> EntryLe(e, entries[i])
  {
    if entries != [] {
      PositionSplits(entries[1..], e);
      if !EntryLess(entries[0], e) {
        forall i | 0 <= i < |entries|
          ensures EntryLe(e, entries[i])
        {
          EntryTransitive(e, entries[0], entries[i]);
        }
      }
    }
  }

  lemma InsertEntrySorted(entries: seq<IndexEntry>, e: IndexEntry)
    requires SortedEntries(entries)
    ensures SortedEntries(InsertEntry(entries, e))
  {
    PositionSplits(entries, e);
    var p := Position(entries, e);
    forall i | 0 <= i < p
      ensures EntryLe(entries[i], e)
    {
      EntryTrichotomy(entries[i], e);
    }
  }

  lemma {:induction false} ChildIndexSplits(keys: seq<IndexKey>, key: IndexKey)
    requires SortedKeys(keys)
    ensures forall i :: 0 <= i < ChildIndex(keys, key) ==> KeyLess(keys[i], key)
    ensures forall i :: ChildIndex(keys, key) <= i < |keys| ==> KeyLe(key, keys[i])
  {
    if keys != [] {
      ChildIndexSplits(keys[1..], key);
      if !KeyLess(keys[0], key) {
        forall i | 0 <= i < |keys|
          ensures KeyLe(key, keys[i])
        {
          KeyTransitive(key, keys[0], keys[i]);
        }
      }
    }
  }

  // Balance

  lemma GraftBalanced(kids: seq<Tree>, i: nat, left: Tree, s: Split, h: nat)
    requires i < |kids| && AllBalanced(kids, h) && Balanced(left, h, false) && Balanced(s.right, h, false)
    ensures AllBalanced(GraftKids(kids, i, left, s), h)
  {
  }

  lemma FinishBalanced(page: PageId, keys: seq<IndexKey>, kids: seq<Tree>, free: u64, h: nat, isRoot: bool)
    requires |kids| == |keys| + 1 && 2 <= |keys| <= MAX_KEYS + 1 && AllBalanced(kids, h)
    requires FinishNode(page, keys, kids, free).Ok?
    ensures GrownBalanced(FinishNode(page, keys, kids, free).value, h + 1, isRoot)
  {
  }

  ghost predicate GrownBalanced(g: Grown, h: nat, isRoot: bool) {
    match g.split
    case None => Balanced(g.left, h, isRoot)
    case Some(s) => Balanced(g.left, h, false) && Balanced(s.right, h, false)
  }

  lemma RegrowBalanced(page: PageId, keys: seq<IndexKey>, kids: seq<Tree>, i: nat, g: Grown, h: nat, isRoot: bool)
    requires |kids| == |keys| + 1 && i <= |keys| && (if isRoot then 1 else 2) <= |keys| <= MAX_KEYS
    requires AllBalanced(kids, h) && GrownBalanced(g, h, false)
    requires Regrow(page, keys, kids, i, g).Ok?
    ensures GrownBalanced(Regrow(page, keys, kids, i, g).value, h + 1, isRoot)
  {
    match g.split
    case None =>
      assert AllBalanced(kids[i := g.left], h);
    case Some(s) =>
      GraftBalanced(kids, i, g.left, s, h);
      FinishBalanced(page, GraftKeys(keys, i, s), GraftKids(kids, i, g.left, s), g.free, h, isRoot);
  }

  lemma {:induction false} InsertBalanced(t: Tree, e: IndexEntry, free: u64, h: nat, isRoot: bool)
    requires Balanced(t, h, isRoot)
    requires Insert(t, e, free).Ok?
    ensures GrownBalanced(Insert(t, e, free).value, h, isRoot)
    decreases t
  {
    match t
    case LeafT(page, entries) =>
      assert |InsertEntry(entries, e)| == |entries| + 1;
    case NodeT(page, keys, kids) =>
      var i := ChildIndex(keys, e.key);
      InsertBalanced(kids[i], e, free, h - 1, false);
      RegrowBalanced(page, keys, kids, i, Insert(kids[i], e, free).value, h - 1, isRoot);
  }

  // Bounds

  lemma {:induction false} BelowMonotone(t: Tree, a: IndexKey, b: IndexKey)
    requires Below(t, a) && KeyLe(a, b)
    ensures Below(t, b)
  {
    match t
    case LeafT(_, entries) =>
      forall i | 0 <= i < |entries| ensures KeyLe(entries[i].key, b) {
        KeyTransitive(entries[i].key, a, b);
      }
    case NodeT(_, keys, kids) =>
      forall i | 0 <= i < |keys| ensures KeyLe(keys[i], b) {
        KeyTransitive(keys[i], a, b);
      }
      forall i | 0 <= i < |kids| ensures Below(kids[i], b) {
        BelowMonotone(kids[i], a, b);
      }
  }

  lemma {:induction false} AboveMonotone(t: Tree, a: IndexKey, b: IndexKey)
    requires Above(t, b) && KeyLe(a, b)
    ensures Above(t, a)
  {
    match t
    case LeafT(_, entries) =>
      forall i | 0 <= i < |entries| ensures KeyLe(a, entries[i].key) {
        KeyTransitive(a, b, entries[i].key);
      }
    case NodeT(_, keys, kids) =>
      forall i | 0 <= i < |keys| ensures KeyLe(a, keys[i]) {
        KeyTransitive(a, b, keys[i]);
      }
      forall i | 0 <= i < |kids| ensures Above(kids[i], a) {
        AboveMonotone(kids[i], a, b);
      }
  }

  ghost predicate GrownBelow(g: Grown, k: IndexKey) {
    && Below(g.left, k)
    && (g.split.Some? ==> KeyLe(g.split.value.separator, k) && Below(g.split.value.right, k))
  }

  ghost predicate GrownAbove(g: Grown, k: IndexKey) {
    && Above(g.left, k)
    && (g.split.Some? ==> KeyLe(k, g.split.value.separator) && Above(g.split.value.right, k))
  }

  lemma GraftBelow(keys: seq<IndexKey>, kids: seq<Tree>, i: nat, left: Tree, s: Split, k: IndexKey)
    requires i < |kids| && i <= |keys|
    requires KeysBelow(keys, k) && AllBelow(kids, k)
    requires Below(left, k) && KeyLe(s.separator, k) && Below(s.right, k)
    ensures KeysBelow(GraftKeys(keys, i, s), k) && AllBelow(GraftKids(kids, i, left, s), k)
  {
  }

  lemma GraftAbove(keys: seq<IndexKey>, kids: seq<Tree>, i: nat, left: Tree, s: Split, k: IndexKey)
    requires i < |kids| && i <= |keys|
    requires KeysAbove(keys, k) && AllAbove(kids, k)
    requires Above(left, k) && KeyLe(k, s.separator) && Above(s.right, k)
    ensures KeysAbove(GraftKeys(keys, i, s), k) && AllAbove(GraftKids(kids, i, left, s), k)
  {
  }

  lemma FinishBelow(page: PageId, keys: seq<IndexKey>, kids: seq<Tree>, free: u64, k: IndexKey)
    requires |kids| == |keys| + 1 && KeysBelow(keys, k) && AllBelow(kids, k)
    requires FinishNode(page, keys, kids, free).Ok?
    ensures GrownBelow(FinishNode(page, keys, kids, free).value, k)
  {
  }

  lemma FinishAbove(page: PageId, keys: seq<IndexKey>, kids: seq<Tree>, free: u64, k: IndexKey)
    requires |kids| == |keys| + 1 && KeysAbove(keys, k) && AllAbove(kids, k)
    requires FinishNode(page, keys, kids, free).Ok?
    ensures GrownAbove(FinishNode(page, keys, kids, free).value, k)
  {
  }

  lemma RegrowBelow(page: PageId, keys: seq<IndexKey>, kids: seq<Tree>, i: nat, g: Grown, k: IndexKey)
    requires |kids| == |keys| + 1 && i <= |keys|
    requires KeysBelow(keys, k) && AllBelow(kids, k) && GrownBelow(g, k)
    requires Regrow(page, keys, kids, i, g).Ok?
    ensures GrownBelow(Regrow(page, keys, kids, i, g).value, k)
  {
    match g.split
    case None =>
      assert AllBelow(kids[i := g.left], k);
    case Some(s) =>
      GraftBelow(keys, kids, i, g.left, s, k);
      FinishBelow(page, GraftKeys(keys, i, s), GraftKids(kids, i, g.left, s), g.free, k);
  }

  lemma {:induction false} InsertBelow(t: Tree, e: IndexEntry, free: u64, k: IndexKey)
    requires Below(t, k) && KeyLe(e.key, k)
    requires Insert(t, e, free).Ok?
    ensures GrownBelow(Insert(t, e, free).value, k)
    decreases t
  {
    if t.NodeT? {
      var i := ChildIndex(t.keys, e.key);
      InsertBelow(t.kids[i], e, free, k);
      RegrowBelow(t.page, t.keys, t.kids, i, Insert(t.kids[i], e, free).value, k);
    }
  }

  lemma RegrowAbove(page: PageId, keys: seq<IndexKey>, kids: seq<Tree>, i: nat, g: Grown, k: IndexKey)
    requires |kids| == |keys| + 1 && i <= |keys|
    requires KeysAbove(keys, k) && AllAbove(kids, k) && GrownAbove(g, k)
    requires Regrow(page, keys, kids, i, g).Ok?
    ensures GrownAbove(Regrow(page, keys, kids, i, g).value, k)
  {
    match g.split
    case None =>
      assert AllAbove(kids[i := g.left], k);
    case Some(s) =>
      GraftAbove(keys, kids, i, g.left, s, k);
      FinishAbove(page, GraftKeys(keys, i, s), GraftKids(kids, i, g.left, s), g.free, k);
  }

  lemma {:induction false} InsertAbove(t: Tree, e: IndexEntry, free: u64, k: IndexKey)
    requires Above(t, k) && KeyLe(k, e.key)
    requires Insert(t, e, free).Ok?
    ensures GrownAbove(Insert(t, e, free).value, k)
    decreases t
  {
    if t.NodeT? {
      var i := ChildIndex(t.keys, e.key);
      InsertAbove(t.kids[i], e, free, k);
      RegrowAbove(t.page, t.keys, t.kids, i, Insert(t.kids[i], e, free).value, k);
    }
  }

  // Order

  ghost predicate GrownOrdered(g: Grown) {
    && Ordered(g.left)
    && (g.split.Some? ==>
          var s := g.split.value;
          Ordered(s.right) && Below(g.left, s.separator) && Above(s.right, s.separator))
  }

  lemma SplitLeafOrdered(page: PageId, entries: seq<IndexEntry>, free: u64)
    requires SortedEntries(entries)
    requires FinishLeaf(page, entries, free).Ok?
    ensures GrownOrdered(FinishLeaf(page, entries, free).value)
  {
    var g := FinishLeaf(page, entries, free).value;
    if g.split.Some? {
      var mid := |entries| / 2;
      forall i | 0 <= i < mid ensures KeyLe(entries[i].key, entries[mid].key) {
        assert EntryLe(entries[i], entries[mid]);
        KeyTrichotomy(entries[i].key, entries[mid].key);
      }
      forall i | mid <= i < |entries| ensures KeyLe(entries[mid].key, entries[i].key) {
        assert mid == i || EntryLe(entries[mid], entries[i]);
        KeyTrichotomy(entries[i].key, entries[mid].key);
      }
    }
  }

  lemma AllBelowSeparator(keys: seq<IndexKey>, kids: seq<Tree>, mid: nat)
    requires mid < |keys| && mid < |kids| && SortedKeys(keys) && Separated(keys, kids)
    ensures AllBelow(kids[..mid + 1], keys[mid]) && KeysBelow(keys[..mid], keys[mid])
  {
    KeyTrichotomy(keys[mid], keys[mid]);
    forall i | 0 <= i <= mid ensures Below(kids[i], keys[mid]) {
      BelowMonotone(kids[i], keys[i], keys[mid]);
    }
  }

  lemma AllAboveSeparator(keys: seq<IndexKey>, kids: seq<Tree>, mid: nat)
    requires mid < |keys| && |kids| == |keys| + 1 && SortedKeys(keys) && Separated(keys, kids)
    ensures AllAbove(kids[mid + 1..], keys[mid]) && KeysAbove(keys[mid + 1..], keys[mid])
  {
    KeyTrichotomy(keys[mid], keys[mid]);
    forall i | mid < i < |kids| ensures Above(kids[i], keys[mid]) {
      AboveMonotone(kids[i], keys[mid], keys[i - 1]);
    }
  }

  lemma SeparatedHalves(keys: seq<IndexKey>, kids: seq<Tree>, mid: nat)
    requires mid < |keys| && |kids| == |keys| + 1 && SortedKeys(keys) && Separated(keys, kids)
    ensures SortedKeys(keys[..mid]) && Separated(keys[..mid], kids[..mid + 1])
    ensures SortedKeys(keys[mid + 1..]) && Separated(keys[mid + 1..], kids[mid + 1..])
  {
    var ks, ts := keys[mid + 1..], kids[mid + 1..];
    forall i | 0 <= i < |ts| && i < |ks| ensures Below(ts[i], ks[i]) {
      assert ts[i] == kids[mid + 1 + i] && ks[i] == keys[mid + 1 + i];
    }
    forall i | 0 < i < |ts| && i <= |ks| ensures Above(ts[i], ks[i - 1]) {
      assert ts[i] == kids[mid + 1 + i] && ks[i - 1] == keys[mid + i];
    }
  }

  lemma SplitNodeOrdered(page: PageId, keys: seq<IndexKey>, kids: seq<Tree>, free: u64)
    requires |kids| == |keys| + 1
    requires SortedKeys(keys) && AllOrdered(kids) && Separated(keys, kids)
    requires FinishNode(page, keys, kids, free).Ok?
    ensures GrownOrdered(FinishNode(page, keys, kids, free).value)
  {
    var g := FinishNode(page, keys, kids, free).value;
    if g.split.Some? {
      var mid := |keys| / 2;
      SeparatedHalves(keys, kids, mid);
      AllBelowSeparator(keys, kids, mid);
      AllAboveSeparator(keys, kids, mid);
      assert AllOrdered(kids[..mid + 1]) && AllOrdered(kids[mid + 1..]);
    }
  }

  lemma GraftSorted(keys: seq<IndexKey>, i: nat, s: Split)
    requires i <= |keys| && SortedKeys(keys)
    requires i > 0 ==> KeyLe(keys[i - 1], s.separator)
    requires i < |keys| ==> KeyLe(s.separator, keys[i])
    ensures SortedKeys(GraftKeys(keys, i, s))
  {
    forall j | 0 <= j < i ensures KeyLe(keys[j], s.separator) {
      KeyTransitive(keys[j], keys[i - 1], s.separator);
    }
    forall j | i <= j < |keys| ensures KeyLe(s.separator, keys[j]) {
      KeyTransitive(s.separator, keys[i], keys[j]);
    }
  }

  lemma GraftSeparated(keys: seq<IndexKey>, kids: seq<Tree>, i: nat, left: Tree, s: Split)
    requires |kids| == |keys| + 1 && i <= |keys| && Separated(keys, kids)
    requires Below(left, s.separator) && Above(s.right, s.separator)
    requires i > 0 ==> Above(left, keys[i - 1])
    requires i < |keys| ==> Below(s.right, keys[i])
    ensures Separated(GraftKeys(keys, i, s), GraftKids(kids, i, left, s))
  {
    var ks, ts := GraftKeys(keys, i, s), GraftKids(kids, i, left, s);
    assert ts[i] == left && ts[i + 1] == s.right && ks[i] == s.separator;
    forall j | 0 <= j < |ts| && j < |ks| ensures Below(ts[j], ks[j]) {
      if j < i {
        assert ts[j] == kids[j] && ks[j] == keys[j];
      } else if j > i {
        assert ks[j] == keys[j - 1] && (j > i + 1 ==> ts[j] == kids[j - 1]);
      }
    }
    forall j | 0 < j < |ts| && j <= |ks| ensures Above(ts[j], ks[j - 1]) {
      if j <= i {
        assert ks[j - 1] == keys[j - 1] && (j < i ==> ts[j] == kids[j]);
      } else if j > i + 1 {
        assert ts[j] == kids[j - 1] && ks[j - 1] == keys[j - 2];
      }
    }
  }

  lemma ReplaceSeparated(keys: seq<IndexKey>, kids: seq<Tree>, i: nat, left: Tree)
    requires |kids| == |keys| + 1 && i <= |keys| && Separated(keys, kids)
    requires i > 0 ==> Above(left, keys[i - 1])
    requires i < |keys| ==> Below(left, keys[i])
    ensures Separated(keys, kids[i := left])
  {
  }

  /** Growing the chosen child leaves it between its two separators. */
  lemma InsertWithin(keys: seq<IndexKey>, kids: seq<Tree>, e: IndexEntry, free: u64)
    requires |kids| == |keys| + 1 && SortedKeys(keys) && Separated(keys, kids)
    requires Insert(kids[ChildIndex(keys, e.key)], e, free).Ok?
    ensures var i := ChildIndex(keys, e.key);
      var g := Insert(kids[i], e, free).value;
      && (i < |keys| ==> GrownBelow(g, keys[i]))
      && (i > 0 ==> GrownAbove(g, keys[i - 1]))
  {
    var i := ChildIndex(keys, e.key);
    ChildIndexSplits(keys, e.key);
    if i < |keys| {
      InsertBelow(kids[i], e, free, keys[i]);
    }
    if i > 0 {
      KeyTrichotomy(keys[i - 1], e.key);
      InsertAbove(kids[i], e, free, keys[i - 1]);
    }
  }

  lemma RegrowOrdered(page: PageId, keys: seq<IndexKey>, kids: seq<Tree>, i: nat, g: Grown)
    requires |kids| == |keys| + 1 && i <= |keys|
    requires SortedKeys(keys) && AllOrdered(kids) && Separated(keys, kids) && GrownOrdered(g)
    requires i < |keys| ==> GrownBelow(g, keys[i])
    requires i > 0 ==> GrownAbove(g, keys[i - 1])
    requires Regrow(page, keys, kids, i, g).Ok?
    ensures GrownOrdered(Regrow(page, keys, kids, i, g).value)
  {
    match g.split
    case None =>
      ReplaceSeparated(keys, kids, i, g.left);
      assert AllOrdered(kids[i := g.left]);
    case Some(s) =>
      GraftSorted(keys, i, s);
      GraftSeparated(keys, kids, i, g.left, s);
      assert AllOrdered(GraftKids(kids, i, g.left, s));
      SplitNodeOrdered(page, GraftKeys(keys, i, s), GraftKids(kids, i, g.left, s), g.free);
  }

  lemma {:induction false} InsertOrdered(t: Tree, e: IndexEntry, free: u64)
    requires Ordered(t)
    requires Insert(t, e, free).Ok?
    ensures GrownOrdered(Insert(t, e, free).value)
    decreases t
  {
    match t
    case LeafT(page, entries) =>
      InsertEntrySorted(entries, e);
      SplitLeafOrdered(page, InsertEntry(entries, e), free);
    case NodeT(page, keys, kids) =>
      var i := ChildIndex(keys, e.key);
      InsertOrdered(kids[i], e, free);
      InsertWithin(keys, kids, e, free);
      RegrowOrdered(page, keys, kids, i, Insert(kids[i], e, free).value);
  }

  // Contents

  lemma {:induction false} LeavesOfConcat(a: seq<Tree>, b: seq<Tree>)
    ensures LeavesOf(a + b) == LeavesOf(a) + LeavesOf(b)
  {
    hide Leaves;
    if a == [] {
      assert a + b == b;
    } else {
      LeavesOfConcat(a[1..], b);
      assert (a + b)[1..] == a[1..] + b;
    }
  }

  lemma {:induction false} GatherConcat(a: seq<LeafPage>, b: seq<LeafPage>)
    ensures Gather(a + b) == Gather(a) + Gather(b)
  {
    if a == [] {
      assert a + b == b;
    } else {
      GatherConcat(a[1..], b);
      assert (a + b)[0] == a[0] && (a + b)[1..] == a[1..] + b;
      var head, tail := a[0].entries, Gather(a[1..]);
      assert head + (tail + Gather(b)) == head + tail + Gather(b);
    }
  }

  ghost function ContentsOf(kids: seq<Tree>): multiset<IndexEntry> {
    multiset(Gather(LeavesOf(kids)))
  }

  lemma ContentsConcat(a: seq<Tree>, b: seq<Tree>)
    ensures ContentsOf(a + b) == ContentsOf(a) + ContentsOf(b)
  {
    LeavesOfConcat(a, b);
    GatherConcat(LeavesOf(a), LeavesOf(b));
  }

  lemma ContentsSingle(t: Tree)
    ensures ContentsOf([t]) == Contents(t)
  {
    assert [t][1..] == [];
    assert LeavesOf([t]) == Leaves(t);
  }

  lemma ContentsLeaf(page: PageId, entries: seq<IndexEntry>)
    ensures Contents(LeafT(page, entries)) == multiset(entries)
  {
    assert Gather([LeafPage(page, entries)]) == entries + Gather([]);
  }

  /** Putting `subs` in the place of one child exchanges their contents. */
  lemma ContentsExchange(kids: seq<Tree>, i: nat, subs: seq<Tree>)
    requires i < |kids|
    ensures ContentsOf(kids[..i] + subs + kids[i + 1..]) + Contents(kids[i]) == ContentsOf(kids) + ContentsOf(subs)
  {
    var before, after := kids[..i], kids[i + 1..];
    assert kids == before + [kids[i]] + after;
    ContentsConcat(before + [kids[i]], after);
    ContentsConcat(before, [kids[i]]);
    ContentsSingle(kids[i]);
    ContentsConcat(before + subs, after);
    ContentsConcat(before, subs);
  }

  ghost function GrownContents(g: Grown): multiset<IndexEntry> {
    match g.split
    case None => Contents(g.left)
    case Some(s) => Contents(g.left) + Contents(s.right)
  }

  lemma FinishLeafContents(page: PageId, entries: seq<IndexEntry>, free: u64)
    requires FinishLeaf(page, entries, free).Ok?
    ensures GrownContents(FinishLeaf(page, entries, free).value) == multiset(entries)
  {
    var g := FinishLeaf(page, entries, free).value;
    ContentsLeaf(page, g.left.entries);
    if g.split.Some? {
      var mid := |entries| / 2;
      ContentsLeaf(free, entries[mid..]);
      assert entries == entries[..mid] + entries[mid..];
    }
  }

  lemma FinishNodeContents(page: PageId, keys: seq<IndexKey>, kids: seq<Tree>, free: u64)
    requires |kids| == |keys| + 1
    requires FinishNode(page, keys, kids, free).Ok?
    ensures GrownContents(FinishNode(page, keys, kids, free).value) == ContentsOf(kids)
  {
    var g := FinishNode(page, keys, kids, free).value;
    if g.split.Some? {
      var mid := |keys| / 2;
      assert kids == kids[..mid + 1] + kids[mid + 1..];
      ContentsConcat(kids[..mid + 1], kids[mid + 1..]);
    }
  }

  lemma Cancel(x: multiset<IndexEntry>, c: multiset<IndexEntry>, k: multiset<IndexEntry>, e: multiset<IndexEntry>)
    requires x + c == k + (c + e)
    ensures x == k + e
  {
    forall y ensures x[y] == (k + e)[y] {
      assert (x + c)[y] == (k + (c + e))[y];
    }
  }

  lemma RegrowContents(page: PageId, keys: seq<IndexKey>, kids: seq<Tree>, i: nat, g: Grown)
    requires |kids| == |keys| + 1 && i <= |keys|
    requires Regrow(page, keys, kids, i, g).Ok?
    ensures GrownContents(Regrow(page, keys, kids, i, g).value) + Contents(kids[i]) == ContentsOf(kids) + GrownContents(g)
  {
    ContentsSingle(g.left);
    match g.split
    case None =>
      ContentsExchange(kids, i, [g.left]);
      assert kids[i := g.left] == kids[..i] + [g.left] + kids[i + 1..];
    case Some(s) =>
      ContentsExchange(kids, i, [g.left, s.right]);
      assert [g.left, s.right] == [g.left] + [s.right];
      ContentsConcat([g.left], [s.right]);
      ContentsSingle(s.right);
      FinishNodeContents(page, GraftKeys(keys, i, s), GraftKids(kids, i, g.left, s), g.free);
  }

  lemma {:induction false} InsertContents(t: Tree, e: IndexEntry, free: u64)
    requires Insert(t, e, free).Ok?
    ensures GrownContents(Insert(t, e, free).value) == Contents(t) + multiset{e}
    decreases t
  {
    match t
    case LeafT(page, entries) =>
      var p := Position(entries, e);
      assert entries == entries[..p] + entries[p..];
      ContentsLeaf(page, entries);
      FinishLeafContents(page, InsertEntry(entries, e), free);
    case NodeT(page, keys, kids) =>
      var i := ChildIndex(keys, e.key);
      InsertContents(kids[i], e, free);
      RegrowContents(page, keys, kids, i, Insert(kids[i], e, free).value);
      Cancel(GrownContents(Insert(t, e, free).value), Contents(kids[i]), ContentsOf(kids), multiset{e});
  }
}
