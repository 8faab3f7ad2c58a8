/** The WAL file and the data file as an open session drives them, with every moment they go through on record. */
module DiskFiles {
  import opened Core
  import opened PageModel
  import opened WalModel
  import opened CrashModel

  /** The files at one moment, and how many commits had returned to their callers by then. */
  datatype Moment = Moment(files: DiskState, acked: nat)

  /** At every moment of `trace` a crash would be safe. */
  ghost predicate Safe(trace: seq<Moment>, base: PageMap, history: seq<PageMap>) {
    forall i :: 0 <= i < |trace| ==> DiskInv(trace[i].files, base, history, trace[i].acked)
  }

  lemma SafeGrows(trace: seq<Moment>, base: PageMap, history: seq<PageMap>, longer: seq<PageMap>)
    requires Safe(trace, base, history) && history <= longer
    ensures Safe(trace, base, longer)
  {
    hide DiskInv;
    forall i | 0 <= i < |trace| ensures DiskInv(trace[i].files, base, longer, trace[i].acked) {
      HistoryGrows(trace[i].files, base, history, longer, trace[i].acked);
    }
  }

  lemma SafeNow(trace: seq<Moment>, base: PageMap, history: seq<PageMap>)
    requires trace != [] && Safe(trace, base, history)
    ensures var now := trace[|trace| - 1]; DiskInv(now.files, base, history, now.acked)
  {
  }

  lemma SafeAppend(trace: seq<Moment>, now: Moment, base: PageMap, history: seq<PageMap>)
    requires Safe(trace, base, history) && DiskInv(now.files, base, history, now.acked)
    ensures Safe(trace + [now], base, history)
  {
  }

  class Disk {
    var wal: Log
    var synced: nat
    var data: PageMap
    var durable: PageMap
    var inflight: set<PageId>
    ghost var acked: nat
    ghost var trace: seq<Moment>

    constructor (wal: Log, data: PageMap)
      ensures Valid() && this.wal == wal && synced == |wal| && this.data == data && durable == data && inflight == {}
      ensures acked == 0 && trace == [Now()]
    {
      this.wal, synced, this.data, durable, inflight := wal, |wal|, data, data, {};
      acked, trace := 0, [Moment(DiskState(wal, |wal|, data, data, {}), 0)];
    }

    ghost function Files(): DiskState
      reads this
    {
      DiskState(wal, synced, data, durable, inflight)
    }

    ghost function Now(): Moment
      reads this
    {
      Moment(Files(), acked)
    }

    /** The record ends with the present. */
    ghost predicate Valid()
      reads this
    {
      trace != [] && trace[|trace| - 1] == Now()
    }

    method Append(r: RecordKind<Page>)
      modifies this`wal, this`trace
      ensures Valid() && wal == old(wal) + [r] && trace == old(trace) + [Now()]
    {
      wal := wal + [r];
      trace := trace + [Now()];
    }

    method SyncWal()
      modifies this`synced, this`trace
      ensures Valid() && synced == |wal| && trace == old(trace) + [Now()]
    {
      synced := |wal|;
      trace := trace + [Now()];
    }

    method ReadPage(pageId: PageId) returns (r: Result<Page>)
      ensures r == if pageId in data then Ok(data[pageId]) else Err(Io)
    {
      r := if pageId in data then Ok(data[pageId]) else Err(Io);
    }

    method WritePage(page: Page)
      modifies this`data, this`inflight, this`trace
      ensures Valid() && data == old(data)[page.Id() := page] && inflight == old(inflight) + {page.Id()}
      ensures trace == old(trace) + [Now()]
    {
      data := data[page.Id() := page];
      inflight := inflight + {page.Id()};
      trace := trace + [Now()];
    }

    method SyncData()
      modifies this`durable, this`inflight, this`trace
      ensures Valid() && durable == data && inflight == {} && trace == old(trace) + [Now()]
    {
      durable := data;
      inflight := {};
      trace := trace + [Now()];
    }

    /** A commit has returned to its caller. */
    ghost method Acknowledge(commits: nat)
      modifies this`acked, this`trace
      ensures Valid() && acked == commits && trace == old(trace) + [Now()]
    {
      acked := commits;
      trace := trace + [Now()];
    }
  }
}
