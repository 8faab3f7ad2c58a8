/** How a tree lies in a set of pages, and which pages an insert may touch. */
module BTreeHeap {
  import opened Core
  import opened IndexModel
  import opened PageModel
  import opened BTreeModel

  type PageMap = map<PageId, Page>

  /** The leaf that follows child `i` in the chain; `next` follows the last child. */
  function NextOf(kids: seq<Tree>, i: nat, next: Option<PageId>): Option<PageId>
    requires i < |kids|
  {
    if i + 1 < |kids| then Some(FirstLeaf(kids[i + 1])) else next
  }

  /** The pages of `t` hold its nodes, and its leaves are chained in order up to `next`. */
  ghost predicate Holds(m: PageMap, t: Tree, next: Option<PageId>)
    decreases t
  {
    match t
    case LeafT(page, entries) =>
      page in m && m[page] == IndexPage(page, Leaf(next, entries))
    case NodeT(page, keys, kids) =>
      page in m && m[page] == IndexPage(page, Internal(keys, Roots(kids))) && HoldsAll(m, kids, next)
  }

  ghost predicate HoldsAll(m: PageMap, kids: seq<Tree>, next: Option<PageId>)
    decreases kids
  {
    forall i :: 0 <= i < |kids| ==> Holds(m, kids[i], NextOf(kids, i, next))
  }

  ghost predicate GrownHolds(m: PageMap, g: Grown, next: Option<PageId>) {
    match g.split
    case None => Holds(m, g.left, next)
    case Some(s) => Holds(m, g.left, Some(FirstLeaf(s.right))) && Holds(m, s.right, next)
  }

  // Pages

  lemma {:induction false} PagesOfMember(kids: seq<Tree>, i: nat)
    requires i < |kids|
    ensures Pages(kids[i]) <= PagesOf(kids)
  {
    if i > 0 {
      PagesOfMember(kids[1..], i - 1);
    }
  }

  lemma {:induction false} PagesOfConcat(a: seq<Tree>, b: seq<Tree>)
    ensures PagesOf(a + b) == PagesOf(a) + PagesOf(b)
  {
    if a == [] {
      assert a + b == b;
    } else {
      PagesOfConcat(a[1..], b);
      assert (a + b)[1..] == a[1..] + b;
    }
  }

  lemma PagesOfSingle(t: Tree)
    ensures PagesOf([t]) == Pages(t)
  {
    assert [t][1..] == [];
  }

  lemma PagesOfExchange(kids: seq<Tree>, i: nat, subs: seq<Tree>)
    requires i < |kids|
    ensures PagesOf(kids[..i] + subs + kids[i + 1..]) == PagesOf(kids[..i]) + PagesOf(subs) + PagesOf(kids[i + 1..])
    ensures PagesOf(kids) == PagesOf(kids[..i]) + Pages(kids[i]) + PagesOf(kids[i + 1..])
  {
    var before, after := kids[..i], kids[i + 1..];
    PagesOfConcat(before + subs, after);
    PagesOfConcat(before, subs);
    assert kids == before + [kids[i]] + after;
    PagesOfConcat(before + [kids[i]], after);
    PagesOfConcat(before, [kids[i]]);
    PagesOfSingle(kids[i]);
  }

  ghost function GrownPages(g: Grown): set<PageId> {
    match g.split
    case None => Pages(g.left)
    case Some(s) => Pages(g.left) + Pages(s.right)
  }

  ghost predicate GrownDistinct(g: Grown) {
    match g.split
    case None => Distinct(g.left)
    case Some(s) => Distinct(g.left) && Distinct(s.right) && Pages(g.left) !! Pages(s.right)
  }

  /** The page ids `first`, ..., `end - 1`. */
  ghost function Ids(first: u64, end: u64): (ids: set<PageId>)
    ensures forall p: PageId :: (p in ids <==> first <= p < end)
    decreases if first < end then end - first else 0
  {
    if first < end then {first} + Ids(first + 1, end) else {}
  }

  ghost predicate DistinctKids(page: PageId, kids: seq<Tree>) {
    && (forall i :: 0 <= i < |kids| ==> Distinct(kids[i]) && page !in Pages(kids[i]))
    && (forall i, j :: 0 <= i < j < |kids| ==> Pages(kids[i]) !! Pages(kids[j]))
  }

  lemma {:induction false} PagesOfPick(kids: seq<Tree>, p: PageId) returns (i: nat)
    requires p in PagesOf(kids)
    ensures i < |kids| && p in Pages(kids[i])
  {
    if p in Pages(kids[0]) {
      i := 0;
    } else {
      i := PagesOfPick(kids[1..], p);
      i := i + 1;
    }
  }

  lemma {:induction false} PagesOfAbsent(kids: seq<Tree>, p: PageId)
    requires forall i :: 0 <= i < |kids| ==> p !in Pages(kids[i])
    ensures p !in PagesOf(kids)
  {
    if kids != [] {
      PagesOfAbsent(kids[1..], p);
    }
  }

  lemma DisjointHalves(page: PageId, kids: seq<Tree>, mid: nat)
    requires mid <= |kids| && DistinctKids(page, kids)
    ensures PagesOf(kids[..mid]) !! PagesOf(kids[mid..])
    ensures page !in PagesOf(kids)
  {
    forall p | p in PagesOf(kids[..mid])
      ensures p !in PagesOf(kids[mid..])
    {
      var i := PagesOfPick(kids[..mid], p);
      forall j | 0 <= j < |kids[mid..]| ensures p !in Pages(kids[mid..][j]) {
        assert Pages(kids[i]) !! Pages(kids[mid + j]);
      }
      PagesOfAbsent(kids[mid..], p);
    }
    PagesOfAbsent(kids, page);
  }

  lemma DistinctTail(page: PageId, free: u64, kids: seq<Tree>, mid: nat)
    requires mid <= |kids| && DistinctKids(page, kids) && free !in PagesOf(kids)
    ensures DistinctKids(free, kids[mid..])
  {
    var tail := kids[mid..];
    forall i | 0 <= i < |tail| ensures Distinct(tail[i]) && free !in Pages(tail[i]) {
      PagesOfMember(kids, mid + i);
    }
    forall i, j | 0 <= i < j < |tail| ensures Pages(tail[i]) !! Pages(tail[j]) {
      assert Pages(kids[mid + i]) !! Pages(kids[mid + j]);
    }
  }

  lemma CutPages(page: PageId, free: u64, kids: seq<Tree>, mid: nat)
    requires mid <= |kids| && DistinctKids(page, kids)
    requires forall p :: p in PagesOf(kids) ==> p < free
    ensures page !in PagesOf(kids)
    ensures PagesOf(kids) == PagesOf(kids[..mid]) + PagesOf(kids[mid..])
    ensures PagesOf(kids[..mid]) !! PagesOf(kids[mid..])
    ensures DistinctKids(page, kids[..mid]) && DistinctKids(free, kids[mid..])
  {
    assert kids == kids[..mid] + kids[mid..];
    PagesOfConcat(kids[..mid], kids[mid..]);
    DisjointHalves(page, kids, mid);
    DistinctTail(page, free, kids, mid);
  }

  /** Cutting a node in two shares its pages out, and adds page `free`. */
  lemma FinishPages(page: PageId, keys: seq<IndexKey>, kids: seq<Tree>, free: u64)
    requires |kids| == |keys| + 1
    requires DistinctKids(page, kids) && page < free
    requires forall p :: p in PagesOf(kids) ==> p < free
    requires FinishNode(page, keys, kids, free).Ok?
    ensures var g := FinishNode(page, keys, kids, free).value;
      && g.left.page == page && FirstLeaf(g.left) == FirstLeaf(kids[0])
      && GrownTakes(g, {page} + PagesOf(kids), free)
  {
    var g := FinishNode(page, keys, kids, free).value;
    var mid := |keys| / 2;
    CutPages(page, free, kids, mid + 1);
    if g.split.Some? {
      assert g.left.kids == kids[..mid + 1] && g.split.value.right.kids == kids[mid + 1..];
    }
  }

  lemma GraftMembers(kids: seq<Tree>, i: nat, left: Tree, s: Split)
    requires i < |kids|
    ensures var ts := GraftKids(kids, i, left, s);
      && |ts| == |kids| + 1 && ts[i] == left && ts[i + 1] == s.right
      && (forall j :: 0 <= j < i ==> ts[j] == kids[j])
      && (forall j :: i + 1 < j < |ts| ==> ts[j] == kids[j - 1])
  {
  }

  lemma GraftDistinct(page: PageId, kids: seq<Tree>, i: nat, left: Tree, s: Split, free: u64)
    requires i < |kids| && DistinctKids(page, kids) && page < free
    requires forall p :: p in PagesOf(kids) ==> p < free
    requires Distinct(left) && Distinct(s.right) && Pages(left) !! Pages(s.right)
    requires forall p :: p in Pages(left) || p in Pages(s.right) ==> p in Pages(kids[i]) || free <= p
    ensures DistinctKids(page, GraftKids(kids, i, left, s))
  {
    var ts := GraftKids(kids, i, left, s);
    forall j | 0 <= j < |kids| && j != i
      ensures Pages(kids[j]) !! Pages(left) && Pages(kids[j]) !! Pages(s.right)
    {
      PagesOfMember(kids, j);
      if j < i {
        assert Pages(kids[j]) !! Pages(kids[i]);
      } else {
        assert Pages(kids[i]) !! Pages(kids[j]);
      }
    }
    GraftMembers(kids, i, left, s);
    forall a, b | 0 <= a < b < |ts| ensures Pages(ts[a]) !! Pages(ts[b]) {
      if a == i || a == i + 1 || b == i || b == i + 1 {
      } else {
        var c, d := if a < i then a else a - 1, if b < i then b else b - 1;
        assert Pages(kids[c]) !! Pages(kids[d]);
      }
    }
  }

  lemma ReplaceDistinct(page: PageId, kids: seq<Tree>, i: nat, left: Tree, free: u64)
    requires i < |kids| && DistinctKids(page, kids) && page < free
    requires forall p :: p in PagesOf(kids) ==> p < free
    requires Distinct(left)
    requires forall p :: p in Pages(left) ==> p in Pages(kids[i]) || free <= p
    ensures DistinctKids(page, kids[i := left])
  {
    forall j | 0 <= j < |kids| && j != i
      ensures Pages(kids[j]) !! Pages(left)
    {
      PagesOfMember(kids, j);
      if j < i {
        assert Pages(kids[j]) !! Pages(kids[i]);
      } else {
        assert Pages(kids[i]) !! Pages(kids[j]);
      }
    }
  }

  lemma GraftPages(kids: seq<Tree>, i: nat, left: Tree, s: Split)
    requires i < |kids|
    ensures PagesOf(GraftKids(kids, i, left, s)) ==
            PagesOf(kids[..i]) + (Pages(left) + Pages(s.right)) + PagesOf(kids[i + 1..])
    ensures PagesOf(kids) == PagesOf(kids[..i]) + Pages(kids[i]) + PagesOf(kids[i + 1..])
  {
    PagesOfExchange(kids, i, [left, s.right]);
    PagesOfConcat([left], [s.right]);
    assert [left, s.right] == [left] + [s.right];
    PagesOfSingle(left);
    PagesOfSingle(s.right);
  }

  /** The pages of a grown subtree, of which `own` were there before and the rest are new. */
  ghost predicate GrownTakes(g: Grown, own: set<PageId>, free: u64) {
    free <= g.free && GrownDistinct(g) && GrownPages(g) == own + Ids(free, g.free)
  }

  lemma RegrowPages(page: PageId, keys: seq<IndexKey>, kids: seq<Tree>, i: nat, g: Grown, free: u64)
    requires |kids| == |keys| + 1 && i <= |keys|
    requires DistinctKids(page, kids) && page < free
    requires forall p :: p in PagesOf(kids) ==> p < free
    requires GrownTakes(g, Pages(kids[i]), free) && FirstLeaf(g.left) == FirstLeaf(kids[i])
    requires Regrow(page, keys, kids, i, g).Ok?
    ensures var r := Regrow(page, keys, kids, i, g).value;
      && r.left.page == page && FirstLeaf(r.left) == FirstLeaf(kids[0])
      && GrownTakes(r, {page} + PagesOf(kids), free)
  {
    match g.split
    case None =>
      ReplacePages(page, keys, kids, i, g.left, free, g.free);
    case Some(s) =>
      GraftedPages(page, keys, kids, i, g, s, free);
  }

  lemma ReplacePages(page: PageId, keys: seq<IndexKey>, kids: seq<Tree>, i: nat, left: Tree, free: u64, end: u64)
    requires |kids| == |keys| + 1 && i < |kids|
    requires DistinctKids(page, kids) && page < free <= end
    requires forall p :: p in PagesOf(kids) ==> p < free
    requires Distinct(left) && Pages(left) == Pages(kids[i]) + Ids(free, end) && FirstLeaf(left) == FirstLeaf(kids[i])
    ensures var t := NodeT(page, keys, kids[i := left]);
      Distinct(t) && Pages(t) == {page} + PagesOf(kids) + Ids(free, end) && FirstLeaf(t) == FirstLeaf(kids[0])
  {
    hide PagesOf;
    PagesOfExchange(kids, i, [left]);
    PagesOfSingle(left);
    assert kids[i := left] == kids[..i] + [left] + kids[i + 1..];
    ReplaceDistinct(page, kids, i, left, free);
  }

  lemma GraftedPages(page: PageId, keys: seq<IndexKey>, kids: seq<Tree>, i: nat, g: Grown, s: Split, free: u64)
    requires |kids| == |keys| + 1 && i <= |keys|
    requires DistinctKids(page, kids) && page < free
    requires forall p :: p in PagesOf(kids) ==> p < free
    requires GrownTakes(g, Pages(kids[i]), free) && FirstLeaf(g.left) == FirstLeaf(kids[i]) && g.split == Some(s)
    requires Regrow(page, keys, kids, i, g).Ok?
    ensures var r := Regrow(page, keys, kids, i, g).value;
      && r.left.page == page && FirstLeaf(r.left) == FirstLeaf(kids[0])
      && GrownTakes(r, {page} + PagesOf(kids), free)
  {
    hide Pages, PagesOf, Distinct, FirstLeaf, FinishNode, GraftKids;
    var ts := GraftKids(kids, i, g.left, s);
    GraftMembers(kids, i, g.left, s);
    GraftTakes(kids, i, g.left, s, free, g.free);
    GraftDistinct(page, kids, i, g.left, s, free);
    FinishPages(page, GraftKeys(keys, i, s), ts, g.free);
    var r := Regrow(page, keys, kids, i, g).value;
    assert Ids(free, r.free) == Ids(free, g.free) + Ids(g.free, r.free);
  }

  lemma GraftTakes(kids: seq<Tree>, i: nat, left: Tree, s: Split, free: u64, end: u64)
    requires i < |kids| && free <= end && Pages(left) + Pages(s.right) == Pages(kids[i]) + Ids(free, end)
    requires forall p :: p in PagesOf(kids) ==> p < free
    ensures PagesOf(GraftKids(kids, i, left, s)) == PagesOf(kids) + Ids(free, end)
    ensures forall p :: p in PagesOf(GraftKids(kids, i, left, s)) ==> p < end
  {
    GraftPages(kids, i, left, s);
  }

  /** An insert keeps every page of the tree, adds the pages it allocated, and repeats none. */
  lemma {:induction false} InsertPages(t: Tree, e: IndexEntry, free: u64)
    requires Distinct(t)
    requires forall p :: p in Pages(t) ==> p < free
    requires Insert(t, e, free).Ok?
    ensures var g := Insert(t, e, free).value;
      && g.left.page == t.page && FirstLeaf(g.left) == FirstLeaf(t)
      && GrownTakes(g, Pages(t), free)
    decreases t
  {
    var r := Insert(t, e, free).value;
    match t
    case LeafT(page, entries) =>
      assert r.split.Some? ==> Ids(free, r.free) == {free};
    case NodeT(page, keys, kids) =>
      var i := ChildIndex(keys, e.key);
      PagesOfMember(kids, i);
      assert Pages(t) == {page} + PagesOf(kids);
      InsertPages(kids[i], e, free);
      RegrowPages(page, keys, kids, i, Insert(kids[i], e, free).value, free);
  }

  // Frames

  lemma {:induction false} HoldsFrame(m: PageMap, n: PageMap, t: Tree, next: Option<PageId>)
    requires Holds(m, t, next)
    requires forall p :: p in Pages(t) && p in m ==> p in n && n[p] == m[p]
    ensures Holds(n, t, next)
    decreases t
  {
    if t.NodeT? {
      forall i | 0 <= i < |t.kids| ensures Holds(n, t.kids[i], NextOf(t.kids, i, next)) {
        PagesOfMember(t.kids, i);
        HoldsFrame(m, n, t.kids[i], NextOf(t.kids, i, next));
      }
    }
  }

  lemma {:induction false} HoldsPages(m: PageMap, t: Tree, next: Option<PageId>)
    requires Holds(m, t, next)
    ensures Pages(t) <= m.Keys
    decreases t
  {
    if t.NodeT? {
      forall p | p in PagesOf(t.kids) ensures p in m {
        var i := PagesOfPick(t.kids, p);
        HoldsPages(m, t.kids[i], NextOf(t.kids, i, next));
      }
    }
  }

  lemma HoldsAllFrame(m: PageMap, n: PageMap, kids: seq<Tree>, next: Option<PageId>)
    requires HoldsAll(m, kids, next)
    requires forall p :: p in PagesOf(kids) && p in m ==> p in n && n[p] == m[p]
    ensures HoldsAll(n, kids, next)
  {
    forall i | 0 <= i < |kids| ensures Holds(n, kids[i], NextOf(kids, i, next)) {
      PagesOfMember(kids, i);
      HoldsFrame(m, n, kids[i], NextOf(kids, i, next));
    }
  }

  /** Every page outside `pages` that existed below `free` is as it was. */
  ghost predicate Framed(m: PageMap, n: PageMap, pages: set<PageId>, free: u64) {
    forall p :: p in m && p !in pages && p < free ==> p in n && n[p] == m[p]
  }

  /** The siblings of a child that grew are where they were. */
  lemma SiblingHolds(m: PageMap, n: PageMap, page: PageId, kids: seq<Tree>, i: nat, j: nat, next: Option<PageId>, free: u64)
    requires i < |kids| && j < |kids| && i != j
    requires HoldsAll(m, kids, next) && DistinctKids(page, kids)
    requires forall p :: p in PagesOf(kids) ==> p < free
    requires Framed(m, n, Pages(kids[i]), free)
    ensures Holds(n, kids[j], NextOf(kids, j, next))
  {
    PagesOfMember(kids, j);
    if i < j {
      assert Pages(kids[i]) !! Pages(kids[j]);
    } else {
      assert Pages(kids[j]) !! Pages(kids[i]);
    }
    HoldsFrame(m, n, kids[j], NextOf(kids, j, next));
  }

  lemma ReplaceHolds(m: PageMap, n: PageMap, page: PageId, kids: seq<Tree>, i: nat, left: Tree, next: Option<PageId>, free: u64)
    requires i < |kids|
    requires HoldsAll(m, kids, next) && DistinctKids(page, kids)
    requires forall p :: p in PagesOf(kids) ==> p < free
    requires Framed(m, n, Pages(kids[i]), free)
    requires Holds(n, left, NextOf(kids, i, next)) && FirstLeaf(left) == FirstLeaf(kids[i])
    ensures HoldsAll(n, kids[i := left], next)
  {
    hide Holds, Pages, PagesOf, FirstLeaf, Distinct;
    var ts := kids[i := left];
    forall j | 0 <= j < |ts| ensures Holds(n, ts[j], NextOf(ts, j, next)) {
      assert NextOf(ts, j, next) == NextOf(kids, j, next);
      if j != i {
        SiblingHolds(m, n, page, kids, i, j, next, free);
      }
    }
  }

  lemma GraftHolds(m: PageMap, n: PageMap, page: PageId, kids: seq<Tree>, i: nat, left: Tree, s: Split, next: Option<PageId>, free: u64)
    requires i < |kids|
    requires HoldsAll(m, kids, next) && DistinctKids(page, kids)
    requires forall p :: p in PagesOf(kids) ==> p < free
    requires Framed(m, n, Pages(kids[i]), free)
    requires Holds(n, left, Some(FirstLeaf(s.right))) && FirstLeaf(left) == FirstLeaf(kids[i])
    requires Holds(n, s.right, NextOf(kids, i, next))
    ensures HoldsAll(n, GraftKids(kids, i, left, s), next)
  {
    hide Holds, Pages, PagesOf, FirstLeaf, Distinct, GraftKids, NextOf, DistinctKids, HoldsAll;
    var ts := GraftKids(kids, i, left, s);
    GraftMembers(kids, i, left, s);
    forall j | 0 <= j < |ts| ensures Holds(n, ts[j], NextOf(ts, j, next)) {
      GraftLinks(kids, i, left, s, next, j);
      if j < i {
        SiblingHolds(m, n, page, kids, i, j, next, free);
      } else if j > i + 1 {
        SiblingHolds(m, n, page, kids, i, j - 1, next, free);
      }
    }
    HoldsEach(n, ts, next);
  }

  lemma HoldsEach(m: PageMap, kids: seq<Tree>, next: Option<PageId>)
    requires forall i :: 0 <= i < |kids| ==> Holds(m, kids[i], NextOf(kids, i, next))
    ensures HoldsAll(m, kids, next)
  {
  }

  /** What follows child `j` in the chain once child `i` has split. */
  lemma GraftLinks(kids: seq<Tree>, i: nat, left: Tree, s: Split, next: Option<PageId>, j: nat)
    requires i < |kids| && j <= |kids| && FirstLeaf(left) == FirstLeaf(kids[i])
    ensures |GraftKids(kids, i, left, s)| == |kids| + 1
    ensures NextOf(GraftKids(kids, i, left, s), j, next) ==
            if j == i then Some(FirstLeaf(s.right)) else NextOf(kids, if j < i then j else j - 1, next)
  {
    hide FirstLeaf, GraftKids;
    GraftMembers(kids, i, left, s);
  }

  lemma HoldsAllCut(m: PageMap, kids: seq<Tree>, mid: nat, next: Option<PageId>)
    requires mid < |kids| && HoldsAll(m, kids, next)
    ensures HoldsAll(m, kids[..mid], Some(FirstLeaf(kids[mid])))
    ensures HoldsAll(m, kids[mid..], next)
  {
    hide Holds, FirstLeaf;
    var head, tail, link := kids[..mid], kids[mid..], Some(FirstLeaf(kids[mid]));
    forall i | 0 <= i < |head| ensures Holds(m, head[i], NextOf(head, i, link)) {
      assert head[i] == kids[i] && NextOf(head, i, link) == NextOf(kids, i, next);
    }
    forall i | 0 <= i < |tail| ensures Holds(m, tail[i], NextOf(tail, i, next)) {
      assert tail[i] == kids[mid + i] && NextOf(tail, i, next) == NextOf(kids, mid + i, next);
    }
  }

  /** `t` lies in `m`, below the page-id frontier, and repeats no page. */
  ghost predicate Planted(m: PageMap, t: Tree, next: Option<PageId>, free: u64) {
    && Holds(m, t, next)
    && Distinct(t)
    && (forall p :: p in Pages(t) ==> p < free)
  }

  /** What a node tells of its child `i`. */
  lemma ChildPlanted(m: PageMap, t: Tree, next: Option<PageId>, i: nat, free: u64)
    requires t.NodeT? && i < |t.kids| && Planted(m, t, next, free)
    ensures HoldsAll(m, t.kids, next) && DistinctKids(t.page, t.kids)
    ensures t.page < free && (forall p :: p in PagesOf(t.kids) ==> p < free)
    ensures Planted(m, t.kids[i], NextOf(t.kids, i, next), free)
    ensures Pages(t.kids[i]) <= Pages(t) && t.page in Pages(t) - Pages(t.kids[i])
  {
    PagesOfMember(t.kids, i);
    assert Pages(t) == {t.page} + PagesOf(t.kids);
  }

  lemma GraftRoots(kids: seq<Tree>, i: nat, left: Tree, s: Split)
    requires i < |kids| && left.page == kids[i].page
    ensures Roots(GraftKids(kids, i, left, s)) == Roots(kids)[..i + 1] + [s.right.page] + Roots(kids)[i + 1..]
  {
    GraftMembers(kids, i, left, s);
  }

  /** The page that holds the root of `t`. */
  function PageOf(t: Tree, next: Option<PageId>): Page {
    match t
    case LeafT(page, entries) => IndexPage(page, Leaf(next, entries))
    case NodeT(page, keys, kids) => IndexPage(page, Internal(keys, Roots(kids)))
  }

  /** The pages an insert writes at one level: the node in place and what it split off. */
  function Written(m: PageMap, g: Grown, next: Option<PageId>): PageMap {
    match g.split
    case None => m[g.left.page := PageOf(g.left, next)]
    case Some(s) =>
      m[g.left.page := PageOf(g.left, Some(s.right.page))][s.right.page := PageOf(s.right, next)]
  }

  lemma FinishLeafHolds(m: PageMap, page: PageId, entries: seq<IndexEntry>, next: Option<PageId>, free: u64)
    requires page < free && FinishLeaf(page, entries, free).Ok?
    ensures var g := FinishLeaf(page, entries, free).value; GrownHolds(Written(m, g, next), g, next)
  {
  }

  lemma FinishHolds(m: PageMap, page: PageId, keys: seq<IndexKey>, kids: seq<Tree>, next: Option<PageId>, free: u64)
    requires |kids| == |keys| + 1 && page < free
    requires HoldsAll(m, kids, next) && DistinctKids(page, kids) && (forall p :: p in PagesOf(kids) ==> p < free)
    requires FinishNode(page, keys, kids, free).Ok?
    ensures var g := FinishNode(page, keys, kids, free).value; GrownHolds(Written(m, g, next), g, next)
  {
    hide PagesOf, Pages, Distinct, FirstLeaf;
    var g := FinishNode(page, keys, kids, free).value;
    var mid := |keys| / 2;
    if g.split.Some? {
      CutHolds(m, page, keys, kids, mid, next, free);
    } else {
      CutPages(page, free, kids, 0);
      HoldsAllFrame(m, Written(m, g, next), kids, next);
    }
  }

  lemma CutHolds(m: PageMap, page: PageId, keys: seq<IndexKey>, kids: seq<Tree>, mid: nat, next: Option<PageId>, free: u64)
    requires mid < |keys| && |kids| == |keys| + 1 && page < free
    requires HoldsAll(m, kids, next) && DistinctKids(page, kids) && (forall p :: p in PagesOf(kids) ==> p < free)
    ensures var left := NodeT(page, keys[..mid], kids[..mid + 1]);
      var right := NodeT(free, keys[mid + 1..], kids[mid + 1..]);
      var n := m[page := PageOf(left, None)][free := PageOf(right, None)];
      Holds(n, left, Some(FirstLeaf(right))) && Holds(n, right, next)
  {
    var left := NodeT(page, keys[..mid], kids[..mid + 1]);
    var right := NodeT(free, keys[mid + 1..], kids[mid + 1..]);
    var n := m[page := PageOf(left, None)][free := PageOf(right, None)];
    CutPages(page, free, kids, mid + 1);
    HoldsAllFrame(m, n, kids, next);
    HoldsAllCut(n, kids, mid + 1, next);
    assert right.kids[0] == kids[mid + 1];
  }

  /** The outcome of growing a subtree planted in a page map: where it lies and which pages it took. */
  ghost predicate GrownPlanted(n: PageMap, g: Grown, t: Tree, next: Option<PageId>, free: u64) {
    && GrownHolds(n, g, next)
    && GrownTakes(g, Pages(t), free)
    && g.left.page == t.page && FirstLeaf(g.left) == FirstLeaf(t)
  }

  /** A node whose child grew needs no write unless the child split. */
  lemma RegrowHolds(m: PageMap, n: PageMap, t: Tree, next: Option<PageId>, free: u64, i: nat, g: Grown)
    requires t.NodeT? && |t.kids| == |t.keys| + 1 && i < |t.kids| && Planted(m, t, next, free)
    requires Framed(m, n, Pages(t.kids[i]), free)
    requires GrownPlanted(n, g, t.kids[i], NextOf(t.kids, i, next), free)
    requires Regrow(t.page, t.keys, t.kids, i, g).Ok?
    ensures var r := Regrow(t.page, t.keys, t.kids, i, g).value;
      GrownHolds(if g.split.None? then n else Written(n, r, next), r, next)
  {
    hide Pages, Distinct, FirstLeaf, FinishNode;
    var page, keys, kids := t.page, t.keys, t.kids;
    ChildPlanted(m, t, next, i, free);
    match g.split
    case None =>
      ReplaceHolds(m, n, page, kids, i, g.left, next, free);
      assert Roots(kids[i := g.left]) == Roots(kids);
    case Some(s) =>
      var ts := GraftKids(kids, i, g.left, s);
      GraftHolds(m, n, page, kids, i, g.left, s, next, free);
      GraftDistinct(page, kids, i, g.left, s, free);
      GraftPages(kids, i, g.left, s);
      FinishHolds(n, page, GraftKeys(keys, i, s), ts, next, g.free);
  }

  /** The pages an insert at the root leaves: a root that split gets a page joining its halves. */
  function RootWritten(n: PageMap, g: Grown): PageMap {
    match g.split
    case None => n
    case Some(s) => n[g.free := IndexPage(g.free, Internal([s.separator], [g.left.page, s.right.page]))]
  }

  lemma RootHolds(n: PageMap, g: Grown, pages: set<PageId>, free: u64)
    requires JoinRoot(g).Ok? && GrownHolds(n, g, None)
    requires GrownTakes(g, pages, free) && (forall p :: p in pages ==> p < free)
    ensures var r := JoinRoot(g).value;
      Planted(RootWritten(n, g), r.tree, None, r.free) && Pages(r.tree) == pages + Ids(free, r.free)
  {
    assert forall p :: p in GrownPages(g) ==> p < g.free;
    if g.split.Some? {
      JoinHolds(n, g);
      assert Ids(free, g.free + 1) == Ids(free, g.free) + {g.free};
    }
  }

  lemma JoinHolds(n: PageMap, g: Grown)
    requires g.split.Some? && g.free < U64_MAX
    requires GrownHolds(n, g, None) && GrownDistinct(g) && (forall p :: p in GrownPages(g) ==> p < g.free)
    ensures var root := NodeT(g.free, [g.split.value.separator], [g.left, g.split.value.right]);
      && Planted(RootWritten(n, g), root, None, g.free + 1)
      && Pages(root) == GrownPages(g) + {g.free}
  {
    var s := g.split.value;
    var kids := [g.left, s.right];
    assert kids == [g.left] + [s.right];
    PagesOfConcat([g.left], [s.right]);
    PagesOfSingle(g.left);
    PagesOfSingle(s.right);
    var m := RootWritten(n, g);
    assert Pages(g.left) <= GrownPages(g) && Pages(s.right) <= GrownPages(g);
    HoldsFrame(n, m, g.left, Some(FirstLeaf(s.right)));
    HoldsFrame(n, m, s.right, None);
    assert HoldsAll(m, kids, None);
    assert DistinctKids(g.free, kids);
    assert Roots(kids) == [g.left.page, s.right.page];
  }
}
