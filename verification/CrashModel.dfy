/** The two files at one moment, what a crash may leave of them, and what recovery makes of that. */
module CrashModel {
  import opened Core
  import opened PageModel
  import opened WalModel
  import opened Redo

  type PageMap = map<PageId, Page>
  type Log = seq<RecordKind<Page>>

  /** One page slot of the data file after a crash: a whole page, or bytes that fail validation. */
  datatype Cell = Intact(page: Page) | Torn

  type Cells = map<PageId, Cell>

  /** `wal[..synced]` is durable. `data` is what reads return; the pages in `inflight` were written since the
  last data sync, and the others are durable as `durable` has them. */
  datatype DiskState = DiskState(wal: Log, synced: nat, data: PageMap, durable: PageMap, inflight: set<PageId>)

  function Lift(m: PageMap): Cells {
    map p | p in m :: Intact(m[p])
  }

  /** A crash keeps a prefix of the log that covers its synced part. Page slots written since the last data
  sync end up in any state at all; every other slot is as it was. */
  ghost predicate Survives(s: DiskState, wal: Log, cells: Cells) {
    && wal <= s.wal && s.synced <= |wal|
    && (forall p :: p !in s.inflight ==> (p in cells <==> p in s.durable))
    && (forall p :: p !in s.inflight && p in cells ==> cells[p] == Intact(s.durable[p]))
  }

  /** Every image is that of the page its record names. */
  predicate Matching(ws: seq<Write<Page>>) {
    forall i :: 0 <= i < |ws| ==> ws[i].image.Id() == ws[i].pageId
  }

  /** The data file after redo of `wal`, provided every committed image matches its record. */
  function Recovered(wal: Log, cells: Cells): Result<Cells> {
    if Matching(Effect(wal)) then Ok(cells + Lift(Collapse(Effect(wal)))) else Err(Corruption)
  }

  // What every reachable moment satisfies

  ghost predicate PrefixInv(log: Log, base: PageMap, history: seq<PageMap>) {
    && CommitCount(log) < |history|
    && base + Collapse(Effect(log)) == history[CommitCount(log)]
    && Matching(Effect(log))
  }

  /** Replaying any prefix of the log gives the page map after as many commits as it holds. */
  ghost predicate LogInv(log: Log, base: PageMap, history: seq<PageMap>) {
    && (forall n :: 0 <= n <= |log| ==> PrefixInv(log[..n], base, history))
    && (forall m, n :: 0 <= m <= n <= |log| ==> Effect(log[..m]) <= Effect(log[..n]))
  }

  /** `m` holds `base` except for pages whose content is a committed image of `log`. */
  ghost predicate WrittenAhead(m: PageMap, base: PageMap, log: Log) {
    && base.Keys <= m.Keys
    && (forall p :: p in m ==> (p in base && m[p] == base[p]) || Write(p, m[p]) in Effect(log))
  }

  ghost predicate DiskInv(s: DiskState, base: PageMap, history: seq<PageMap>, acked: nat) {
    && s.synced <= |s.wal|
    && LogInv(s.wal, base, history)
    && acked <= CommitCount(s.wal[..s.synced])
    && WrittenAhead(s.data, base, s.wal[..s.synced])
    && WrittenAhead(s.durable, base, s.wal[..s.synced])
    && s.inflight <= Collapse(Effect(s.wal[..s.synced])).Keys
    && (forall p :: p !in s.inflight ==> (p in s.data <==> p in s.durable))
    && (forall p :: p !in s.inflight && p in s.data ==> s.data[p] == s.durable[p])
  }

  lemma {:induction false} CollapseKeys<I>(ws: seq<Write<I>>)
    ensures forall w :: w in ws ==> w.pageId in Collapse(ws)
    ensures forall p :: p in Collapse(ws) ==> Write(p, Collapse(ws)[p]) in ws
  {
    if ws != [] {
      var n := |ws| - 1;
      CollapseKeys(ws[..n]);
      assert ws == ws[..n] + [ws[n]];
    }
  }

  /** A longer log redoes every page a shorter one redoes. */
  lemma EffectKeys(log: Log, m: nat, n: nat, base: PageMap, history: seq<PageMap>)
    requires LogInv(log, base, history) && m <= n <= |log|
    ensures Collapse(Effect(log[..m])).Keys <= Collapse(Effect(log[..n])).Keys
  {
    var a, b := Effect(log[..m]), Effect(log[..n]);
    assert a <= b;
    assert b == a + b[|a|..];
    CollapseConcat(a, b[|a|..]);
  }

  /** Off the redone pages a crash leaves what the session began with. */
  lemma UntouchedPage(s: DiskState, base: PageMap, history: seq<PageMap>, acked: nat, n: nat, cells: Cells, p: PageId)
    requires DiskInv(s, base, history, acked) && s.synced <= n <= |s.wal|
    requires Survives(s, s.wal[..n], cells) && p !in Collapse(Effect(s.wal[..n]))
    ensures p in cells <==> p in base
    ensures p in base ==> cells[p] == Intact(base[p])
  {
    EffectKeys(s.wal, s.synced, n, base, history);
    CollapseKeys(Effect(s.wal[..s.synced]));
    assert p !in s.inflight;
    if p in s.durable {
      assert Write(p, s.durable[p]) !in Effect(s.wal[..s.synced]);
    }
  }

  /** Crash at any moment: recovery succeeds and leaves exactly the page map after the commits whose markers
  survived, among them every commit already acknowledged. */
  lemma CrashSafe(s: DiskState, base: PageMap, history: seq<PageMap>, acked: nat, wal: Log, cells: Cells)
    requires DiskInv(s, base, history, acked)
    requires Survives(s, wal, cells)
    ensures acked <= CommitCount(wal) < |history|
    ensures Recovered(wal, cells) == Ok(Lift(history[CommitCount(wal)]))
  {
    var n := |wal|;
    assert wal == s.wal[..n];
    CommitCountMonotone(s.wal, s.synced, n);
    assert PrefixInv(s.wal[..n], base, history);
    var c := Collapse(Effect(wal));
    forall p | p !in c
      ensures p in cells <==> p in base
      ensures p in base ==> cells[p] == Intact(base[p])
    {
      UntouchedPage(s, base, history, acked, n, cells, p);
    }
    OverlayLift(cells, base, c);
  }

  lemma OverlayLift(cells: Cells, base: PageMap, c: PageMap)
    requires forall p :: p !in c ==> (p in cells <==> p in base)
    requires forall p :: p !in c && p in base ==> cells[p] == Intact(base[p])
    ensures cells + Lift(c) == Lift(base + c)
  {
  }

  // Steps

  lemma {:induction false} NoCommits<I>(log: seq<RecordKind<I>>, n: nat)
    requires CommitCount(log) == 0 && n <= |log|
    ensures CommitCount(log[..n]) == 0 && Effect(log[..n]) == []
  {
    assert log[..|log|] == log;
    CommitCountMonotone(log, n, |log|);
    NoneCommitted(log[..n]);
    assert CommittedIn(log[..n]) - AbortedIn(log[..n]) == {};
    NoImages(log[..n]);
  }

  lemma {:induction false} NoneCommitted<I>(log: seq<RecordKind<I>>)
    requires CommitCount(log) == 0
    ensures CommittedIn(log) == {}
  {
    if log != [] {
      var n := |log| - 1;
      NoneCommitted(log[..n]);
      CommittedConcat(log[..n], [log[n]]);
      SingleRecord(log[n]);
      assert log == log[..n] + [log[n]];
    }
  }

  lemma {:induction false} NoImages<I>(log: seq<RecordKind<I>>)
    ensures ImagesOf(log, {}) == []
  {
    if log != [] {
      NoImages(log[1..]);
    }
  }

  /** A session that opens on durable files and a log without commits begins safe. */
  lemma OpeningIsSafe(s: DiskState)
    requires s.synced == |s.wal| && s.durable == s.data && s.inflight == {} && CommitCount(s.wal) == 0
    ensures DiskInv(s, s.data, [s.data], 0)
  {
    forall n | 0 <= n <= |s.wal|
      ensures CommitCount(s.wal[..n]) == 0 && Effect(s.wal[..n]) == []
    {
      NoCommits(s.wal, n);
    }
  }

  lemma HistoryGrows(s: DiskState, base: PageMap, history: seq<PageMap>, longer: seq<PageMap>, acked: nat)
    requires DiskInv(s, base, history, acked) && history <= longer
    ensures DiskInv(s, base, longer, acked)
  {
    forall n | 0 <= n <= |s.wal| ensures PrefixInv(s.wal[..n], base, longer) {
      assert PrefixInv(s.wal[..n], base, history);
    }
  }

  lemma LogAppend(log: Log, r: RecordKind<Page>, base: PageMap, history: seq<PageMap>)
    requires LogInv(log, base, history)
    requires PrefixInv(log + [r], base, history) && Effect(log) <= Effect(log + [r])
    ensures LogInv(log + [r], base, history)
  {
    hide Effect, PrefixInv;
    var all := log + [r];
    assert all[..|all|] == all && log[..|log|] == log;
    assert forall n :: 0 <= n <= |log| ==> all[..n] == log[..n];
    forall m, n | 0 <= m <= n <= |all| ensures Effect(all[..m]) <= Effect(all[..n]) {
      if m <= |log| < n {
        assert Effect(log[..m]) <= Effect(log[..|log|]);
      }
    }
  }

  lemma WalAppend(s: DiskState, r: RecordKind<Page>, base: PageMap, history: seq<PageMap>, acked: nat)
    requires DiskInv(s, base, history, acked)
    requires PrefixInv(s.wal + [r], base, history) && Effect(s.wal) <= Effect(s.wal + [r])
    ensures DiskInv(s.(wal := s.wal + [r]), base, history, acked)
  {
    LogAppend(s.wal, r, base, history);
    assert (s.wal + [r])[..s.synced] == s.wal[..s.synced];
  }

  /** Any record but a commit marker, for a transaction not yet committed. */
  lemma NeutralStep(s: DiskState, r: RecordKind<Page>, base: PageMap, history: seq<PageMap>, acked: nat)
    requires DiskInv(s, base, history, acked)
    requires !r.CommitTx? && (r.PageImage? || r.AbortTx? ==> r.txId !in CommittedIn(s.wal))
    ensures DiskInv(s.(wal := s.wal + [r]), base, history, acked)
  {
    NeutralAppend(s.wal, r);
    CommitCountAppend(s.wal, r);
    assert s.wal[..|s.wal|] == s.wal;
    WalAppend(s, r, base, history, acked);
  }

  /** The history once `t`, whose images the log holds, commits. */
  ghost function AfterCommit(log: Log, t: TxId, history: seq<PageMap>): seq<PageMap>
    requires history != []
  {
    history + [history[|history| - 1] + Collapse(ImagesOf(log, {t}))]
  }

  lemma CommitPrefix(log: Log, start: nat, t: TxId, base: PageMap, history: seq<PageMap>)
    requires PrefixInv(log, base, history) && CommitCount(log) == |history| - 1
    requires OwnSuffix(log, start, t) && Matching(ImagesOf(log, {t}))
    ensures PrefixInv(log + [CommitTx(t)], base, AfterCommit(log, t, history))
    ensures Effect(log) <= Effect(log + [CommitTx(t)])
  {
    var before, own := Effect(log), ImagesOf(log, {t});
    CommitAppend(log, start, t);
    CommitCountAppend<Page>(log, CommitTx(t));
    CollapseConcat(before, own);
    OverlayAssociative(base, Collapse(before), Collapse(own));
  }

  lemma OverlayAssociative(a: PageMap, b: PageMap, c: PageMap)
    ensures a + (b + c) == a + b + c
  {
  }

  /** The commit marker adds one page map to the history: the last one under the transaction's images. */
  lemma CommitStep(s: DiskState, start: nat, t: TxId, base: PageMap, history: seq<PageMap>, acked: nat)
    requires DiskInv(s, base, history, acked)
    requires CommitCount(s.wal) == |history| - 1
    requires OwnSuffix(s.wal, start, t) && Matching(ImagesOf(s.wal, {t}))
    ensures DiskInv(s.(wal := s.wal + [CommitTx(t)]), base, AfterCommit(s.wal, t, history), acked)
  {
    assert s.wal[..|s.wal|] == s.wal;
    assert PrefixInv(s.wal[..|s.wal|], base, history);
    HistoryGrows(s, base, history, AfterCommit(s.wal, t, history), acked);
    CommitPrefix(s.wal, start, t, base, history);
    WalAppend(s, CommitTx(t), base, AfterCommit(s.wal, t, history), acked);
  }

  lemma SyncWalStep(s: DiskState, base: PageMap, history: seq<PageMap>, acked: nat)
    requires DiskInv(s, base, history, acked)
    ensures DiskInv(s.(synced := |s.wal|), base, history, acked)
  {
    CommitCountMonotone(s.wal, s.synced, |s.wal|);
    EffectKeys(s.wal, s.synced, |s.wal|, base, history);
    assert Effect(s.wal[..s.synced]) <= Effect(s.wal[..|s.wal|]);
  }

  lemma WritePageStep(s: DiskState, page: Page, base: PageMap, history: seq<PageMap>, acked: nat)
    requires DiskInv(s, base, history, acked)
    requires Write(page.Id(), page) in Effect(s.wal[..s.synced])
    ensures DiskInv(s.(data := s.data[page.Id() := page], inflight := s.inflight + {page.Id()}), base, history, acked)
  {
    hide Effect, LogInv, Collapse, CommitCount;
    CollapseKeys(Effect(s.wal[..s.synced]));
  }

  lemma SyncDataStep(s: DiskState, base: PageMap, history: seq<PageMap>, acked: nat)
    requires DiskInv(s, base, history, acked)
    ensures DiskInv(s.(durable := s.data, inflight := {}), base, history, acked)
  {
  }

  /** A commit may return once its marker is in the synced log. */
  lemma AcknowledgeStep(s: DiskState, base: PageMap, history: seq<PageMap>, acked: nat, more: nat)
    requires DiskInv(s, base, history, acked)
    requires s.synced == |s.wal| && more <= CommitCount(s.wal)
    ensures DiskInv(s, base, history, more)
  {
    assert s.wal[..s.synced] == s.wal;
  }
}
