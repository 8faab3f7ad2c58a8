/** The images a commit logs: which they are, in what order, and what they amount to. */
module CommitLog {
  import opened Core
  import opened PageModel
  import opened WalModel
  import opened Redo
  import opened CrashModel

  predicate Ascending(ids: seq<PageId>) {
    forall i, j :: 0 <= i < j < |ids| ==> ids[i] < ids[j]
  }

  lemma Smallest(s: set<PageId>) returns (p: PageId)
    requires s != {}
    ensures p in s && forall q :: q in s ==> p <= q
  {
    var first :| first in s;
    var rest := s - {first};
    assert s == rest + {first};
    if rest == {} {
      p := first;
    } else {
      p := Smallest(rest);
      p := if first < p then first else p;
    }
  }

  /** Page ids in the order of the map that holds the dirty pages. */
  method SortedIds(s: set<PageId>) returns (ids: seq<PageId>)
    ensures Ascending(ids) && forall p :: p in ids <==> p in s
  {
    ids := [];
    var rest := s;
    while rest != {}
      invariant rest <= s && Ascending(ids)
      invariant forall p :: p in ids <==> p in s - rest
      invariant forall i, q :: 0 <= i < |ids| && q in rest ==> ids[i] < q
      decreases rest
    {
      ghost var least := Smallest(rest);
      var p :| p in rest && forall q :: q in rest ==> p <= q;
      ids := ids + [p];
      rest := rest - {p};
    }
  }

  function ImageWrites(dirty: PageMap, ids: seq<PageId>): seq<Write<Page>>
    requires forall i :: 0 <= i < |ids| ==> ids[i] in dirty
  {
    seq(|ids|, i requires 0 <= i < |ids| => Write(ids[i], dirty[ids[i]]))
  }

  /** The pages of `dirty` named in `ids`. */
  function Kept(dirty: PageMap, ids: seq<PageId>): PageMap {
    map p | p in dirty && p in ids :: dirty[p]
  }

  lemma KeptStep(m: PageMap, dirty: PageMap, ids: seq<PageId>, i: nat)
    requires i < |ids| && ids[i] in dirty
    ensures (m + Kept(dirty, ids[..i]))[ids[i] := dirty[ids[i]]] == m + Kept(dirty, ids[..i + 1])
  {
    assert ids[..i + 1] == ids[..i] + [ids[i]];
  }

  lemma KeptAll(m: PageMap, dirty: PageMap, ids: seq<PageId>)
    requires forall p :: p in ids <==> p in dirty
    ensures m + Kept(dirty, ids[..0]) == m && m + Kept(dirty, ids) == m + dirty
  {
  }

  lemma {:induction false} CollapseWrites(dirty: PageMap, ids: seq<PageId>)
    requires forall i :: 0 <= i < |ids| ==> ids[i] in dirty
    ensures Collapse(ImageWrites(dirty, ids)) == Kept(dirty, ids)
  {
    if ids != [] {
      var n := |ids| - 1;
      CollapseWrites(dirty, ids[..n]);
      assert ImageWrites(dirty, ids)[..n] == ImageWrites(dirty, ids[..n]);
      assert ids == ids[..n] + [ids[n]];
    }
  }

  lemma WritesAppend(dirty: PageMap, ids: seq<PageId>, i: nat)
    requires i < |ids| && forall k :: 0 <= k < |ids| ==> ids[k] in dirty
    ensures ImageWrites(dirty, ids[..i + 1]) == ImageWrites(dirty, ids[..i]) + [Write(ids[i], dirty[ids[i]])]
    ensures Collapse(ImageWrites(dirty, ids[..i + 1])) == Collapse(ImageWrites(dirty, ids[..i]))[ids[i] := dirty[ids[i]]]
  {
    var a, b := ImageWrites(dirty, ids[..i]), ImageWrites(dirty, ids[..i + 1]);
    assert b == a + [Write(ids[i], dirty[ids[i]])];
    assert b[..|b| - 1] == a;
  }

  function ImageRecords(t: TxId, dirty: PageMap, ids: seq<PageId>): Log
    requires forall i :: 0 <= i < |ids| ==> ids[i] in dirty
  {
    seq(|ids|, i requires 0 <= i < |ids| => PageImage(t, ids[i], dirty[ids[i]]))
  }

  lemma RecordsAppend(t: TxId, dirty: PageMap, ids: seq<PageId>, i: nat)
    requires i < |ids| && forall k :: 0 <= k < |ids| ==> ids[k] in dirty
    ensures ImageRecords(t, dirty, ids[..i + 1]) == ImageRecords(t, dirty, ids[..i]) + [PageImage(t, ids[i], dirty[ids[i]])]
  {
  }

  /** Logged images alone commit nothing. */
  lemma {:induction false} LoggedImages(start: Log, t: TxId, dirty: PageMap, ids: seq<PageId>)
    requires Quiet(start, t) && forall i :: 0 <= i < |ids| ==> ids[i] in dirty
    ensures var log := start + ImageRecords(t, dirty, ids);
      && ImagesOf(log, {t}) == ImageWrites(dirty, ids)
      && t !in CommittedIn(log) && CommitCount(log) == CommitCount(start)
  {
    if ids == [] {
      hide CommittedIn, CommitCount;
      assert start + ImageRecords(t, dirty, ids) == start;
    } else {
      hide Quiet, CommittedIn, AbortedIn, ImagesOf, CommitCount, ImageWrites, ImageRecords, Collapse;
      var n := |ids| - 1;
      var before, r := start + ImageRecords(t, dirty, ids[..n]), PageImage(t, ids[n], dirty[ids[n]]);
      LoggedImages(start, t, dirty, ids[..n]);
      assert ids[..|ids|] == ids;
      RecordsAppend(t, dirty, ids, n);
      WritesAppend(dirty, ids, n);
      assert start + ImageRecords(t, dirty, ids) == before + [r];
      CommittedConcat(before, [r]);
      ImagesConcat(before, [r], {t});
      SingleRecord(r);
      CommitCountAppend(before, r);
    }
  }

  lemma {:induction false} LoggedQuiet(start: Log, t: TxId, dirty: PageMap, ids: seq<PageId>, first: TxId)
    requires QuietFrom(start, first) && t < first && forall i :: 0 <= i < |ids| ==> ids[i] in dirty
    ensures QuietFrom(start + ImageRecords(t, dirty, ids), first)
  {
    hide QuietFrom;
    if ids == [] {
      assert start + ImageRecords(t, dirty, ids) == start;
    } else {
      var n := |ids| - 1;
      LoggedQuiet(start, t, dirty, ids[..n], first);
      RecordsAppend(t, dirty, ids, n);
      assert ids[..|ids|] == ids;
      var before, r := start + ImageRecords(t, dirty, ids[..n]), PageImage(t, ids[n], dirty[ids[n]]);
      QuietFromAppend(before, r, first);
      assert start + ImageRecords(t, dirty, ids) == before + [r];
    }
  }

  lemma LoggedSuffix(start: Log, t: TxId, dirty: PageMap, ids: seq<PageId>)
    requires Quiet(start, t) && forall i :: 0 <= i < |ids| ==> ids[i] in dirty
    ensures OwnSuffix(start + ImageRecords(t, dirty, ids), |start|, t)
  {
    hide CommittedIn, AbortedIn, ImagesOf;
    assert (start + ImageRecords(t, dirty, ids))[..|start|] == start;
  }

  /** With the commit marker appended, the logged images are exactly what the log newly amounts to. */
  lemma MarkerAppended(
      files: DiskState, start: Log, t: TxId, dirty: PageMap, ids: seq<PageId>, base: PageMap, history: seq<PageMap>, acked: nat,
      first: TxId)
    requires DiskInv(files, base, history, acked)
    requires QuietFrom(start, first) && t < first && Quiet(start, t) && CommitCount(start) == |history| - 1
    requires forall p :: p in ids <==> p in dirty
    requires forall p :: p in dirty ==> dirty[p].Id() == p
    requires files.wal == start + ImageRecords(t, dirty, ids)
    ensures var wal := files.wal + [CommitTx(t)];
      && DiskInv(files.(wal := wal), base, history + [history[|history| - 1] + dirty], acked)
      && CommitCount(wal) == |history|
      && QuietFrom(wal, first)
      && forall p :: p in dirty ==> Write(p, dirty[p]) in Effect(wal)
  {
    hide DiskInv, ImagesOf, CommittedIn, AbortedIn, CommitCount, Collapse, Quiet, QuietFrom, LogInv;
    LoggedImages(start, t, dirty, ids);
    LoggedSuffix(start, t, dirty, ids);
    LoggedQuiet(start, t, dirty, ids, first);
    QuietFromAppend(files.wal, CommitTx(t), first);
    var writes := ImageWrites(dirty, ids);
    assert Matching(writes);
    CommitStep(files, |start|, t, base, history, acked);
    CommitCountAppend<Page>(files.wal, CommitTx(t));
    CollapseWrites(dirty, ids);
    assert Collapse(writes) == dirty;
    CommitAppend(files.wal, |start|, t);
    forall p | p in dirty ensures Write(p, dirty[p]) in Effect(files.wal + [CommitTx(t)]) {
      var i :| 0 <= i < |ids| && ids[i] == p;
      assert writes[i] == Write(p, dirty[p]);
      assert Write(p, dirty[p]) in writes;
    }
  }
}
