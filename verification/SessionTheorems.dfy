/** What one open session guarantees, whatever it runs and wherever it is cut. */
module SessionTheorems {
  import opened Core
  import opened CatalogModel
  import opened CatalogCodec
  import opened SlottedModel
  import opened PageModel
  import opened BTreeModel
  import opened BTreeHeap
  import opened DbModel
  import opened HeapOps
  import opened WalModel
  import opened Redo
  import opened CrashModel
  import opened DiskFiles
  import opened CommitLog
  import opened Recovery
  import opened Transactions

  /** Crash at any moment of a session, interrupt recovery as often as you like, run it to the end: the data file is
  exactly the page map after the commits whose markers survived, and every commit that had returned is among them. */
  lemma CrashAnywhere(s: TransactionalStore, k: nat, wal: Log, crashed: Cells, interrupted: Cells)
    requires s.Valid() && k < |s.disk.trace|
    requires Survives(s.disk.trace[k].files, wal, crashed) && SameOffLog(wal, crashed, interrupted)
    ensures s.disk.trace[k].acked <= CommitCount(wal) < |s.history|
    ensures Recovered(wal, interrupted) == Ok(Lift(s.history[CommitCount(wal)]))
  {
    var moment := s.disk.trace[k];
    CrashSafe(moment.files, s.base, s.history, moment.acked, wal, crashed);
    RecoveryConverges(wal, crashed, interrupted);
  }

  /** No page reaches the data file before its image and the commit marker of its transaction are in the synced log. */
  lemma WrittenOnlyWhenLogged(s: TransactionalStore, k: nat, p: PageId)
    requires s.Valid() && k < |s.disk.trace| && p in s.disk.trace[k].files.data
    ensures var f := s.disk.trace[k].files;
      && f.synced <= |f.wal|
      && ((p in s.base && f.data[p] == s.base[p]) || Logged(f.wal[..f.synced], p, f.data[p]))
  {
    var f := s.disk.trace[k].files;
    assert DiskInv(f, s.base, s.history, s.disk.trace[k].acked);
    if !(p in s.base && f.data[p] == s.base[p]) {
      EffectMember(f.wal[..f.synced], CommittedIn(f.wal[..f.synced]) - AbortedIn(f.wal[..f.synced]), Write(p, f.data[p]));
    }
  }

  /** `page` is the image of `p` in a record of a transaction the log commits and does not abort. */
  ghost predicate Logged(log: Log, p: PageId, page: Page) {
    exists i :: 0 <= i < |log| && log[i].PageImage? && log[i].pageId == p && log[i].image == page
                && log[i].txId in CommittedIn(log) && log[i].txId !in AbortedIn(log)
  }

  lemma {:induction false} EffectMember(log: Log, done: set<TxId>, w: Write<Page>)
    requires w in ImagesOf(log, done)
    ensures exists i :: 0 <= i < |log| && log[i].PageImage? && log[i].pageId == w.pageId && log[i].image == w.image
                        && log[i].txId in done
  {
    if log[0].PageImage? && log[0].txId in done && Write(log[0].pageId, log[0].image) == w {
    } else {
      EffectMember(log[1..], done, w);
      var i :| 0 <= i < |log[1..]| && log[1..][i].PageImage? && log[1..][i].pageId == w.pageId
               && log[1..][i].image == w.image && log[1..][i].txId in done;
      assert log[i + 1] == log[1..][i];
    }
  }

  // Reopening

  lemma FreshDatabase()
    ensures InOrder(map[CATALOG_PAGE_ID := CatalogPage(EMPTY_CATALOG)], EMPTY_CATALOG, map[])
  {
    var c := EMPTY_CATALOG;
    assert |CatalogBytes(c)| <= 4056 by {
      PageZero();
    }
  }

  lemma PageZero()
    ensures |CatalogBytes(EMPTY_CATALOG)| == 30
  {
  }

  /** The record on page 0 decodes to the catalog the transaction worked with. */
  lemma CatalogReadsBack(m: PageMap, c: Catalog, forest: Forest)
    requires InOrder(m, c, forest)
    ensures ParseCatalog(CatalogBytes(c)) == Some(c)
  {
    hide CatalogBytes, ParseCatalog, TreeInv;
    forall i | 0 <= i < |c.relations| ensures c.relations[i].storage.Heap? ==> c.relations[i].storage.pages != [] {
      assert RelationInv(c.relations[i], m, forest, c.nextPageId);
    }
    CatalogRoundTrip(c);
  }

  /** Every page but page 0 belongs to at most one relation, once, and has been handed out. */
  lemma OwnedOnce(m: PageMap, c: Catalog, forest: Forest, i: nat, j: nat, p: PageId)
    requires InOrder(m, c, forest) && i < |c.relations| && j < |c.relations|
    requires p in Owned(c.relations[i], forest) && p in Owned(c.relations[j], forest)
    ensures i == j && 0 < p < c.nextPageId && p in m
    ensures c.relations[i].storage.Heap? ==> NoRepeats(c.relations[i].storage.pages)
    ensures c.relations[i].storage.BPlusTree? ==> Distinct(forest[c.relations[i].id])
  {
    hide Storable, NamesInv, Holds, Balanced, Ordered;
    assert RelationInv(c.relations[i], m, forest, c.nextPageId);
    assert RelationInv(c.relations[j], m, forest, c.nextPageId);
    match c.relations[i].storage
    case Heap(pages) =>
      var k :| 0 <= k < |pages| && pages[k] == p;
      assert HeapPageAt(m, pages[k]);
    case BPlusTree(_, _, _) =>
      HoldsPages(m, forest[c.relations[i].id], None);
  }

  // Transaction ids across sessions

  /** A session that logs the images `own` and commits, cut after any record, and one that aborts, both under an id
  the log may already know, change what redo does exactly as they should. */
  ghost predicate SafeToReuse(log: Log, t: TxId) {
    && (forall own: seq<Write<Page>> ::
          && Effect(log + ImagesBy(t, own)) == Effect(log)
          && Effect(log + ImagesBy(t, own) + [CommitTx(t)]) == Effect(log) + own)
    && Effect(log + [AbortTx(t)]) == Effect(log)
  }

  function ImagesBy(t: TxId, own: seq<Write<Page>>): Log {
    seq(|own|, i requires 0 <= i < |own| => PageImage(t, own[i].pageId, own[i].image))
  }

  /** A transaction id may be used again on a log exactly when the log holds no image, commit or abort of it.
  Every session starts over at id 1, and recovery leaves the log in place. */
  lemma ReuseIsSafe(log: Log, t: TxId)
    ensures SafeToReuse(log, t) <==> Quiet(log, t)
  {
    if Quiet(log, t) {
      forall own: seq<Write<Page>>
        ensures Effect(log + ImagesBy(t, own)) == Effect(log)
        ensures Effect(log + ImagesBy(t, own) + [CommitTx(t)]) == Effect(log) + own
      {
        QuietReuse(log, t, own);
      }
      NeutralAppend(log, AbortTx(t));
    } else {
      NoisyReuse(log, t);
    }
  }

  lemma {:induction false} ImagesByOwn(t: TxId, own: seq<Write<Page>>)
    ensures ImagesOf(ImagesBy(t, own), {t}) == own
  {
    if own != [] {
      ImagesByOwn(t, own[1..]);
      assert ImagesBy(t, own)[1..] == ImagesBy(t, own[1..]);
      assert own == [own[0]] + own[1..];
    }
  }

  lemma QuietReuse(log: Log, t: TxId, own: seq<Write<Page>>)
    requires Quiet(log, t)
    ensures Effect(log + ImagesBy(t, own)) == Effect(log)
    ensures Effect(log + ImagesBy(t, own) + [CommitTx(t)]) == Effect(log) + own
  {
    hide ImagesOf, CommittedIn, AbortedIn;
    var images := ImagesBy(t, own);
    var all := log + images;
    assert all[..|log|] == log && all[|log|..] == images;
    CommitAppend(all, |log|, t);
    ImagesByOwn(t, own);
    ReuseImages(log, t, own);
  }

  /** Images of `t` take effect at once when the log already commits it. */
  lemma ReuseImages(log: Log, t: TxId, own: seq<Write<Page>>)
    ensures Effect(log + ImagesBy(t, own)) == Effect(log) + if t in CommittedIn(log) - AbortedIn(log) then own else []
  {
    hide ImagesOf, CommittedIn, AbortedIn;
    var images, done := ImagesBy(t, own), CommittedIn(log) - AbortedIn(log);
    CommittedConcat(log, images);
    SuffixMarks(images);
    assert CommittedIn(log + images) - AbortedIn(log + images) == done;
    ImagesConcat(log, images, done);
    ImagesSole(images, done, t);
    ImagesByOwn(t, own);
  }

  lemma NoisyReuse(log: Log, t: TxId)
    requires !Quiet(log, t)
    ensures !SafeToReuse(log, t)
  {
    hide ImagesOf, CommittedIn, AbortedIn;
    var one := [Write(0, CatalogPage(EMPTY_CATALOG))];
    var images, done := ImagesBy(t, one), CommittedIn(log) - AbortedIn(log);
    ReuseImages(log, t, one);
    var all := log + images + [CommitTx(t)];
    CommittedConcat(log + images, [CommitTx(t)]);
    CommittedConcat(log, images);
    SuffixMarks(images);
    SingleRecord<Page>(CommitTx(t));
    ImagesConcat(log + images, [CommitTx(t)], CommittedIn(all) - AbortedIn(all));
    ImagesConcat(log, images, CommittedIn(all) - AbortedIn(all));
    ImagesSole(images, CommittedIn(all) - AbortedIn(all), t);
    ImagesByOwn(t, one);
    if t in AbortedIn(log) {
      assert CommittedIn(all) - AbortedIn(all) == done;
    } else if t !in CommittedIn(log) {
      assert CommittedIn(all) - AbortedIn(all) == done + {t};
      MoreImages(log, done, t);
    }
  }

  /** Letting a transaction with images count lengthens what redo applies. */
  lemma {:induction false} MoreImages(log: Log, done: set<TxId>, t: TxId)
    requires t !in done
    ensures |ImagesOf(log, done + {t})| == |ImagesOf(log, done)| + |ImagesOf(log, {t})|
  {
    if log != [] {
      MoreImages(log[1..], done, t);
    }
  }

  /** A second session whose only transaction rolls back undoes the first session's commit; one that commits
  applies what the first left uncommitted. */
  lemma ReuseLosesAndRevives(image: Page)
    ensures Effect([PageImage(1, 0, image), CommitTx(1)]) == [Write(0, image)]
    ensures Effect([PageImage(1, 0, image), CommitTx(1)] + [AbortTx(1)]) == []
    ensures Effect([PageImage(1, 0, image)]) == []
    ensures Effect([PageImage(1, 0, image)] + [CommitTx(1)]) == [Write(0, image)]
  {
    hide CommittedIn, AbortedIn, ImagesOf;
    var record, own := PageImage(1, 0, image), [Write(0, image)];
    var kept := [record] + [CommitTx(1)];
    var undone := kept + [AbortTx(1)];
    assert [record, CommitTx(1)] == kept;
    SingleRecord(record);
    SingleRecord<Page>(CommitTx(1));
    SingleRecord<Page>(AbortTx(1));
    CommittedConcat([record], [CommitTx(1)]);
    CommittedConcat(kept, [AbortTx(1)]);
    ImagesConcat([record], [CommitTx(1)], {1});
    ImagesConcat([record], [CommitTx(1)], {});
    ImagesConcat(kept, [AbortTx(1)], {});
    assert CommittedIn(kept) - AbortedIn(kept) == {1} && CommittedIn(undone) - AbortedIn(undone) == {};
    assert CommittedIn([record]) - AbortedIn([record]) == {};
  }
}
