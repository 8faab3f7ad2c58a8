/** Redo over a data file, and opening what it leaves. */
module Recovery {
  import opened Core
  import opened CatalogModel
  import opened PageModel
  import opened BTreeHeap
  import opened WalModel
  import opened Redo
  import opened CrashModel

  class PageFileRedo {
    var pages: Cells
    var redone: nat

    constructor (pages: Cells)
      ensures this.pages == pages && redone == 0
    {
      this.pages, redone := pages, 0;
    }

    method RedoPageImage(pageId: PageId, image: Page)
      modifies this
      ensures pages == old(pages)[pageId := Intact(image)] && redone == old(redone) + 1
    {
      pages := pages[pageId := Intact(image)];
      redone := redone + 1;
    }
  }

  /** The transactions with a commit marker, and those with an abort marker. */
  method Outcomes<I(==)>(records: seq<RecordKind<I>>) returns (committed: set<TxId>, aborted: set<TxId>)
    ensures committed == CommittedIn(records) && aborted == AbortedIn(records)
  {
    committed, aborted := {}, {};
    for i := 0 to |records|
      invariant committed == CommittedIn(records[..i]) && aborted == AbortedIn(records[..i])
    {
      match records[i] {
        case CommitTx(txId) => committed := committed + {txId};
        case AbortTx(txId) => aborted := aborted + {txId};
        case _ =>
      }
      assert records[..i + 1] == records[..i] + [records[i]];
      CommittedConcat(records[..i], [records[i]]);
      SingleRecord(records[i]);
    }
    assert records[..|records|] == records;
  }

  /** Replay the committed images in log order, up to the first one that is not of the page its record names. */
  method RedoCommittedPageImages(records: Log, redo: PageFileRedo) returns (r: Result<()>)
    modifies redo
    ensures match Recovered(records, old(redo.pages))
      case Ok(pages) => r == Ok(()) && redo.pages == pages && redo.redone == old(redo.redone) + |Effect(records)|
      case Err(error) => r == Err(error)
    ensures exists n :: 0 <= n <= |Effect(records)| && redo.pages == old(redo.pages) + Lift(Collapse(Effect(records)[..n]))
  {
    hide CommittedIn, AbortedIn, ImagesOf, Collapse, Recovered;
    var committed, aborted := Outcomes(records);
    ghost var done, start := committed - aborted, redo.pages;
    ghost var all := ImagesOf(records, done);
    NothingRedone(records, done, start);
    for i := 0 to |records|
      invariant Progress(records, done, start, redo.pages, i)
      invariant redo.redone == old(redo.redone) + |ImagesOf(records[..i], done)|
    {
      var record := records[i];
      ReplayStep(records, done, i, start, redo.pages);
      if record.PageImage? && record.txId in committed && record.txId !in aborted {
        if record.image.Id() != record.pageId {
          MismatchFound(records, done, i, start);
          assert ImagesOf(records[..i], done) == Effect(records)[..|ImagesOf(records[..i], done)|];
          return Err(Corruption);
        }
        redo.RedoPageImage(record.pageId, record.image);
      }
    }
    assert records[..|records|] == records;
    assert all[..|all|] == all;
    r := Ok(());
    assert Recovered(records, start) == Ok(redo.pages) by {
      RecoveredIs(records, start);
    }
  }

  lemma RecoveredIs(records: Log, cells: Cells)
    requires Matching(Effect(records))
    ensures Recovered(records, cells) == Ok(cells + Lift(Collapse(Effect(records))))
  {
  }

  /** The first `i` records are replayed. */
  ghost predicate Progress(records: Log, done: set<TxId>, start: Cells, pages: Cells, i: nat) {
    && i <= |records|
    && Matching(ImagesOf(records[..i], done))
    && pages == start + Lift(Collapse(ImagesOf(records[..i], done)))
    && ImagesOf(records[..i], done) <= ImagesOf(records, done)
  }

  lemma NothingRedone(records: Log, done: set<TxId>, start: Cells)
    ensures Progress(records, done, start, start, 0) && ImagesOf(records[..0], done) == []
  {
    assert Lift(Collapse([])) == map[];
  }

  lemma ReplayStep(records: Log, done: set<TxId>, i: nat, start: Cells, pages: Cells)
    requires i < |records| && Progress(records, done, start, pages, i)
    ensures var r := records[i];
      if r.PageImage? && r.txId in done then
        && ImagesOf(records[..i + 1], done) == ImagesOf(records[..i], done) + [Write(r.pageId, r.image)]
        && (r.image.Id() == r.pageId ==> Progress(records, done, start, pages[r.pageId := Intact(r.image)], i + 1))
      else
        && ImagesOf(records[..i + 1], done) == ImagesOf(records[..i], done)
        && Progress(records, done, start, pages, i + 1)
  {
    hide Utf8, ImagesOf;
    var r := records[i];
    assert records[..i + 1] == records[..i] + [r];
    ImagesConcat(records[..i], [r], done);
    SingleRecord(r);
    assert records == records[..i + 1] + records[i + 1..];
    ImagesConcat(records[..i + 1], records[i + 1..], done);
    if r.PageImage? && r.txId in done {
      var before, write := ImagesOf(records[..i], done), Write(r.pageId, r.image);
      assert (before + [write])[..|before|] == before;
      assert Lift(Collapse(before + [write])) == Lift(Collapse(before))[r.pageId := Intact(r.image)];
    }
  }

  lemma MismatchFound(records: Log, done: set<TxId>, i: nat, start: Cells)
    requires i < |records| && done == CommittedIn(records) - AbortedIn(records)
    requires records[i].PageImage? && records[i].txId in done && records[i].image.Id() != records[i].pageId
    requires ImagesOf(records[..i + 1], done) == ImagesOf(records[..i], done) + [Write(records[i].pageId, records[i].image)]
    ensures Recovered(records, start) == Err(Corruption)
    ensures ImagesOf(records[..i], done) <= Effect(records)
  {
    hide ImagesOf, CommittedIn, AbortedIn;
    assert records == records[..i + 1] + records[i + 1..];
    ImagesConcat(records[..i + 1], records[i + 1..], done);
    var n := |ImagesOf(records[..i], done)|;
    assert Effect(records)[n] == Write(records[i].pageId, records[i].image);
  }

  datatype RecoveryReport = RecoveryReport(scannedWalRecords: nat, redonePageImages: nat)

  /** Bring a data file up to date with a log. */
  method RecoverPageFile(wal: Log, pages: Cells) returns (r: Result<(Cells, RecoveryReport)>)
    ensures match Recovered(wal, pages)
      case Err(error) => r == Err(error)
      case Ok(recovered) => r == Ok((recovered, RecoveryReport(|wal|, |Effect(wal)|)))
  {
    var redo := new PageFileRedo(pages);
    var replayed := RedoCommittedPageImages(wal, redo);
    match replayed
    case Err(error) => r := Err(error);
    case Ok(_) => r := Ok((redo.pages, RecoveryReport(|wal|, redo.redone)));
  }

  // What recovery does not depend on

  ghost predicate SameOffLog(wal: Log, a: Cells, b: Cells) {
    forall p :: p !in Collapse(Effect(wal)) ==> (p in a <==> p in b) && (p in a ==> a[p] == b[p])
  }

  /** Whatever the pages the log redoes held before, recovery leaves the same file. So it may be cut short after
  any of its writes, even a torn one, and run again. */
  lemma RecoveryConverges(wal: Log, a: Cells, b: Cells)
    requires SameOffLog(wal, a, b)
    ensures Recovered(wal, a) == Recovered(wal, b)
  {
    hide Effect, Collapse;
    var redone := Lift(Collapse(Effect(wal)));
    assert a + redone == b + redone;
  }

  /** Write `i` is the last one to page `p`. */
  ghost predicate LastAt<I>(ws: seq<Write<I>>, p: PageId, i: nat) {
    i < |ws| && ws[i].pageId == p && forall j :: i < j < |ws| ==> ws[j].pageId != p
  }

  /** The last committed image of a page is what recovery leaves on it; any other page is untouched. */
  lemma RecoveredPage(wal: Log, pages: Cells, p: PageId)
    requires Recovered(wal, pages).Ok?
    ensures var after := Recovered(wal, pages).value;
      if forall i :: 0 <= i < |Effect(wal)| ==> Effect(wal)[i].pageId != p
      then (p in after <==> p in pages) && (p in pages ==> after[p] == pages[p])
      else exists i: nat :: LastAt(Effect(wal), p, i) && p in after && after[p] == Intact(Effect(wal)[i].image)
  {
    hide Effect;
    CollapseLast(Effect(wal), p);
  }

  lemma {:induction false} CollapseLast<I>(ws: seq<Write<I>>, p: PageId)
    ensures p !in Collapse(ws) ==> forall i :: 0 <= i < |ws| ==> ws[i].pageId != p
    ensures p in Collapse(ws) ==> exists i: nat :: LastAt(ws, p, i) && Collapse(ws)[p] == ws[i].image
  {
    if ws != [] {
      var n := |ws| - 1;
      CollapseLast(ws[..n], p);
      if ws[n].pageId == p {
        assert LastAt(ws, p, n);
      } else if p in Collapse(ws[..n]) {
        var i: nat :| LastAt(ws[..n], p, i) && Collapse(ws[..n])[p] == ws[..n][i].image;
        assert LastAt(ws, p, i);
      }
    }
  }

  /** Record `i` is an image of a committed transaction. */
  ghost predicate RedoneAt(wal: Log, i: nat) {
    i < |wal| && wal[i].PageImage? && Committed(wal, wal[i].txId)
  }

  ghost predicate LastRedoneAt(wal: Log, p: PageId, i: nat) {
    RedoneAt(wal, i) && wal[i].pageId == p && forall j: nat :: i < j < |wal| && RedoneAt(wal, j) ==> wal[j].pageId != p
  }

  /** Recovery told from the log alone. It stops with Corruption exactly when an image of a committed transaction is of
  another page than its record says. Otherwise each page holds the last such image of it, or what it held before. */
  lemma RecoveryFromLog(wal: Log, pages: Cells)
    ensures match Recovered(wal, pages)
      case Err(error) => error == Corruption && exists i: nat :: RedoneAt(wal, i) && wal[i].image.Id() != wal[i].pageId
      case Ok(after) =>
        && (forall i: nat :: RedoneAt(wal, i) ==> wal[i].image.Id() == wal[i].pageId)
        && (forall p: PageId ::
              if exists i: nat :: RedoneAt(wal, i) && wal[i].pageId == p then
                p in after && exists i: nat :: LastRedoneAt(wal, p, i) && after[p] == Intact(wal[i].image)
              else (p in after <==> p in pages) && (p in pages ==> after[p] == pages[p]))
  {
    hide ImagesOf, Collapse, CommittedIn, AbortedIn;
    CommittedMeans(wal);
    var done := CommittedIn(wal) - AbortedIn(wal);
    assert forall i: nat :: RedoneAt(wal, i) <==> ImageAt(wal, done, i);
    forall w | w in Effect(wal) ensures exists i: nat :: RedoneAt(wal, i) && Write(wal[i].pageId, wal[i].image) == w {
      ImageListed(wal, done, w);
      var i: nat :| ImageAt(wal, done, i) && Write(wal[i].pageId, wal[i].image) == w;
    }
    forall i: nat | RedoneAt(wal, i) ensures Write(wal[i].pageId, wal[i].image) in Effect(wal) {
      ImageListed(wal, done, Write(wal[i].pageId, wal[i].image));
    }
    if !Matching(Effect(wal)) {
      var k :| 0 <= k < |Effect(wal)| && Effect(wal)[k].image.Id() != Effect(wal)[k].pageId;
      assert Effect(wal)[k] in Effect(wal);
    }
    forall p: PageId
      ensures p in Collapse(Effect(wal)) ==>
        exists i: nat :: LastRedoneAt(wal, p, i) && Collapse(Effect(wal))[p] == wal[i].image
      ensures p !in Collapse(Effect(wal)) ==> forall i: nat :: RedoneAt(wal, i) ==> wal[i].pageId != p
    {
      CollapseOfLog(wal, done, p);
      if p in Collapse(Effect(wal)) {
        var i: nat :| LastImageAt(wal, done, p, i) && Collapse(Effect(wal))[p] == wal[i].image;
        assert LastRedoneAt(wal, p, i);
      }
    }
  }

  // Opening

  /** The catalog of a data file, bootstrapped when the file is empty. */
  method OpenCatalog(pages: Cells) returns (r: Result<(Cells, Catalog)>)
    ensures pages == map[] ==> r == Ok((map[CATALOG_PAGE_ID := Intact(CatalogPage(EMPTY_CATALOG))], EMPTY_CATALOG))
    ensures pages != map[] ==> match r
      case Ok((after, catalog)) =>
        after == pages && CATALOG_PAGE_ID in pages && pages[CATALOG_PAGE_ID] == Intact(CatalogPage(catalog))
      case Err(error) =>
        && error == Corruption
        && !(CATALOG_PAGE_ID in pages && pages[CATALOG_PAGE_ID].Intact? && pages[CATALOG_PAGE_ID].page.CatalogPage?)
  {
    if pages == map[] {
      return Ok((pages[CATALOG_PAGE_ID := Intact(CatalogPage(EMPTY_CATALOG))], EMPTY_CATALOG));
    }
    if CATALOG_PAGE_ID !in pages {
      return Err(Corruption);
    }
    match pages[CATALOG_PAGE_ID]
    case Torn =>
      return Err(Corruption);
    case Intact(page) =>
      match page
      case CatalogPage(catalog) => return Ok((pages, catalog));
      case _ => return Err(Corruption);
  }
}
