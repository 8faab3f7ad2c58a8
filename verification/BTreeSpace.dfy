/** How many pages a tree takes, and when a run of inserts is sure to succeed. */
module BTreeSpace {
  import opened Core
  import opened IndexModel
  import opened BTreeModel
  import opened BTreeOrder
  import opened BTreeLookup
  import opened BTreeTheorems

  function Nodes(t: Tree): nat
    decreases t
  {
    match t
    case LeafT(_, _) => 1
    case NodeT(_, _, kids) => 1 + NodesOf(kids)
  }

  function NodesOf(kids: seq<Tree>): nat
    decreases kids
  {
    if kids == [] then 0 else Nodes(kids[0]) + NodesOf(kids[1..])
  }

  function GrownNodes(g: Grown): nat {
    Nodes(g.left) + if g.split.Some? then Nodes(g.split.value.right) else 0
  }

  lemma {:induction false} NodesOfConcat(a: seq<Tree>, b: seq<Tree>)
    ensures NodesOf(a + b) == NodesOf(a) + NodesOf(b)
  {
    if a == [] {
      assert a + b == b;
    } else {
      NodesOfConcat(a[1..], b);
      assert (a + b)[0] == a[0] && (a + b)[1..] == a[1..] + b;
    }
  }

  lemma NodesOfSingle(t: Tree)
    ensures NodesOf([t]) == Nodes(t)
  {
    assert NodesOf([t]) == Nodes(t) + NodesOf([t][1..]);
  }

  lemma NodesOfExchange(kids: seq<Tree>, i: nat, subs: seq<Tree>)
    requires i < |kids|
    ensures NodesOf(kids[..i] + subs + kids[i + 1..]) + Nodes(kids[i]) == NodesOf(kids) + NodesOf(subs)
  {
    var before, after := kids[..i], kids[i + 1..];
    NodesOfConcat(before + subs, after);
    NodesOfConcat(before, subs);
    assert kids == before + [kids[i]] + after;
    NodesOfConcat(before + [kids[i]], after);
    NodesOfConcat(before, [kids[i]]);
    NodesOfSingle(kids[i]);
  }

  // Page ids taken are nodes added

  lemma FinishNodes(page: PageId, keys: seq<IndexKey>, kids: seq<Tree>, free: u64)
    requires |kids| == |keys| + 1 && FinishNode(page, keys, kids, free).Ok?
    ensures var g := FinishNode(page, keys, kids, free).value; GrownNodes(g) == 1 + NodesOf(kids) + (g.free - free)
  {
    var mid := |keys| / 2;
    assert kids == kids[..mid + 1] + kids[mid + 1..];
    NodesOfConcat(kids[..mid + 1], kids[mid + 1..]);
  }

  lemma RegrowNodes(page: PageId, keys: seq<IndexKey>, kids: seq<Tree>, i: nat, g: Grown, free: u64)
    requires |kids| == |keys| + 1 && i <= |keys| && Regrow(page, keys, kids, i, g).Ok?
    requires GrownNodes(g) == Nodes(kids[i]) + (g.free - free)
    ensures var r := Regrow(page, keys, kids, i, g).value; GrownNodes(r) == 1 + NodesOf(kids) + (r.free - free)
  {
    hide Nodes, FinishNode;
    match g.split
    case None =>
      assert kids[i := g.left] == kids[..i] + [g.left] + kids[i + 1..];
      NodesOfExchange(kids, i, [g.left]);
      NodesOfSingle(g.left);
      NodeCount(page, keys, kids[i := g.left]);
    case Some(s) =>
      NodesOfExchange(kids, i, [g.left, s.right]);
      assert [g.left, s.right] == [g.left] + [s.right];
      NodesOfConcat([g.left], [s.right]);
      NodesOfSingle(g.left);
      NodesOfSingle(s.right);
      FinishNodes(page, GraftKeys(keys, i, s), GraftKids(kids, i, g.left, s), g.free);
  }

  lemma NodeCount(page: PageId, keys: seq<IndexKey>, kids: seq<Tree>)
    ensures Nodes(NodeT(page, keys, kids)) == 1 + NodesOf(kids)
  {
  }

  lemma {:induction false} InsertNodes(t: Tree, e: IndexEntry, free: u64)
    requires Insert(t, e, free).Ok?
    ensures var g := Insert(t, e, free).value; GrownNodes(g) == Nodes(t) + (g.free - free)
    decreases t
  {
    match t
    case LeafT(page, entries) =>
    case NodeT(page, keys, kids) =>
      var i := ChildIndex(keys, e.key);
      InsertNodes(kids[i], e, free);
      RegrowNodes(page, keys, kids, i, Insert(kids[i], e, free).value, free);
  }

  /** An insert adds as many nodes as it takes page ids. */
  lemma InsertRootNodes(t: Tree, e: IndexEntry, free: u64)
    requires InsertRoot(t, e, free).Ok?
    ensures var r := InsertRoot(t, e, free).value; Nodes(r.tree) == Nodes(t) + (r.free - free)
  {
    InsertNodes(t, e, free);
    var g := Insert(t, e, free).value;
    if g.split.Some? {
      var kids := [g.left, g.split.value.right];
      assert kids == [g.left] + [g.split.value.right];
      NodesOfConcat([g.left], [g.split.value.right]);
      NodesOfSingle(g.left);
      NodesOfSingle(g.split.value.right);
    }
  }

  // Nodes and entries

  lemma {:induction false} NonRootNodes(t: Tree, h: nat)
    requires Balanced(t, h, false)
    ensures h < Nodes(t) < |Entries(t)|
    decreases t
  {
    match t
    case LeafT(page, entries) => GatherSingle(page, entries);
    case NodeT(_, _, kids) => AllNodes(kids, h - 1);
  }

  lemma {:induction false} AllNodes(kids: seq<Tree>, h: nat)
    requires AllBalanced(kids, h)
    ensures NodesOf(kids) + |kids| <= |Gather(LeavesOf(kids))|
    ensures kids != [] ==> h < NodesOf(kids)
    decreases kids
  {
    if kids != [] {
      NonRootNodes(kids[0], h);
      AllNodes(kids[1..], h);
      GatherConcat(Leaves(kids[0]), LeavesOf(kids[1..]));
    }
  }

  /** A tree has at most one node more than it has entries. */
  lemma NodesBound(t: Tree, h: nat)
    requires WellFormed(t, h)
    ensures h < Nodes(t) <= |Entries(t)| + 1
  {
    if t.NodeT? {
      AllNodes(t.kids, h - 1);
    }
  }

  // Runs of inserts

  lemma {:induction false} InsertAllConcat(t: Tree, a: seq<IndexEntry>, b: seq<IndexEntry>, free: u64)
    ensures InsertAll(t, a + b, free) ==
            match InsertAll(t, a, free) case Err(error) => Err(error) case Ok(r) => InsertAll(r.tree, b, r.free)
    decreases |a|
  {
    if a == [] {
      assert a + b == b;
    } else {
      assert (a + b)[0] == a[0] && (a + b)[1..] == a[1..] + b;
      if InsertRoot(t, a[0], free).Ok? {
        var r := InsertRoot(t, a[0], free).value;
        InsertAllConcat(r.tree, a[1..], b, r.free);
      }
    }
  }

  lemma InsertAllOne(t: Tree, e: IndexEntry, free: u64)
    ensures InsertAll(t, [e], free) == InsertRoot(t, e, free)
  {
    if InsertRoot(t, e, free).Ok? {
      var r := InsertRoot(t, e, free).value;
      assert InsertAll(t, [e], free) == InsertAll(r.tree, [e][1..], r.free);
    }
  }

  /** A failed run of inserts has run out of room in a node or of page ids. */
  lemma {:induction false} InsertAllErrorIsUser(t: Tree, h: nat, es: seq<IndexEntry>, free: u64)
    requires WellFormed(t, h) && InsertAll(t, es, free).Err?
    ensures InsertAll(t, es, free) == Err(User)
    decreases |es|
  {
    if Insert(t, es[0], free).Err? {
      InsertErrorIsUser(t, h, true, es[0], free);
    } else if InsertRoot(t, es[0], free).Ok? {
      var r := InsertRoot(t, es[0], free).value;
      var h' := InsertRootKeeps(t, h, es[0], free);
      InsertAllErrorIsUser(r.tree, h', es[1..], r.free);
    }
  }

  /** Keys of at most 996 bytes and two page ids an entry are enough for any run of inserts. */
  lemma {:induction false} InsertAllFits(t: Tree, h: nat, es: seq<IndexEntry>, free: u64)
    requires WellFormed(t, h) && ShortTree(t) && ShortEntries(es)
    requires free - Nodes(t) + 2 * (|Entries(t)| + |es|) < U64_MAX
    ensures InsertAll(t, es, free).Ok?
    decreases |es|
  {
    hide Balanced, Ordered, ShortTree, Entries, Nodes, Insert, JoinRoot;
    if es != [] {
      NodesBound(t, h);
      InsertRootFits(t, h, es[0], free);
      var r := InsertRoot(t, es[0], free).value;
      var h' := InsertRootKeeps(t, h, es[0], free);
      InsertRootNodes(t, es[0], free);
      assert |Contents(r.tree)| == |Contents(t)| + 1;
      InsertAllFits(r.tree, h', es[1..], r.free);
    }
  }

  lemma EmptyTreeSize(root: PageId)
    ensures Nodes(EmptyTree(root)) == 1 && Entries(EmptyTree(root)) == [] && ShortTree(EmptyTree(root))
  {
    GatherSingle(root, []);
  }

  /** An index filled from nothing succeeds while its text keys stay within 996 bytes and page ids last. */
  lemma FillFits(root: PageId, es: seq<IndexEntry>)
    requires ShortEntries(es) && root + 2 * |es| < U64_MAX
    ensures InsertAll(EmptyTree(root), es, root + 1).Ok?
  {
    hide Balanced, Ordered, ShortTree, Entries, Nodes, InsertAll;
    EmptyTreeWellFormed(root);
    EmptyTreeSize(root);
    InsertAllFits(EmptyTree(root), 0, es, root + 1);
  }

  /** A full node splits in halves: two and three entries, or two keys on either side of the one that moves up. */
  lemma SplitHalves(t: Tree, e: IndexEntry, free: u64)
    requires Insert(t, e, free).Ok? && Insert(t, e, free).value.split.Some? && Balanced(t, if t.LeafT? then 0 else 1, true)
    ensures var g := Insert(t, e, free).value;
      var right := g.split.value.right;
      && g.left.LeafT? == right.LeafT? == t.LeafT?
      && (t.LeafT? ==> |g.left.entries| == 2 && |right.entries| == 3 && g.split.value.separator == right.entries[0].key)
      && (t.NodeT? ==> |g.left.keys| == |right.keys| == 2)
  {
    hide Fits, KeyLess, EntryLess, AllBalanced;
  }
}
