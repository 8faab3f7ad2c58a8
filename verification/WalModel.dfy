/** The write-ahead log as a sequence of records, and what redo makes of it. */
module WalModel {
  import opened Core

  /** A record; `I` is the page image it may carry. */
  datatype RecordKind<+I> =
    | BeginTx(txId: TxId)
    | PageImage(txId: TxId, pageId: PageId, image: I)
    | CommitTx(txId: TxId)
    | AbortTx(txId: TxId)
    | Checkpoint

  /** One page image redo applies. */
  datatype Write<+I> = Write(pageId: PageId, image: I)

  function CommittedIn<I>(log: seq<RecordKind<I>>): set<TxId> {
    if log == [] then {}
    else (if log[0].CommitTx? then {log[0].txId} else {}) + CommittedIn(log[1..])
  }

  function AbortedIn<I>(log: seq<RecordKind<I>>): set<TxId> {
    if log == [] then {}
    else (if log[0].AbortTx? then {log[0].txId} else {}) + AbortedIn(log[1..])
  }

  /** Images of the transactions in `done`, in log order. */
  function ImagesOf<I>(log: seq<RecordKind<I>>, done: set<TxId>): seq<Write<I>> {
    if log == [] then []
    else (if log[0].PageImage? && log[0].txId in done then [Write(log[0].pageId, log[0].image)] else [])
         + ImagesOf(log[1..], done)
  }

  /** What redo applies: images of transactions with a commit marker and no abort marker. */
  function Effect<I>(log: seq<RecordKind<I>>): seq<Write<I>> {
    ImagesOf(log, CommittedIn(log) - AbortedIn(log))
  }

  /** The page map a run of writes leaves: the last image of each page. */
  function Collapse<I>(ws: seq<Write<I>>): map<PageId, I> {
    if ws == [] then map[] else Collapse(ws[..|ws| - 1])[ws[|ws| - 1].pageId := ws[|ws| - 1].image]
  }

  function CommitCount<I>(log: seq<RecordKind<I>>): nat {
    if log == [] then 0 else (if log[|log| - 1].CommitTx? then 1 else 0) + CommitCount(log[..|log| - 1])
  }

  /** Every record of `t` is in `log`'s suffix from `start`, and nothing else is but its images. */
  ghost predicate OwnSuffix<I>(log: seq<RecordKind<I>>, start: nat, t: TxId) {
    && start <= |log|
    && t !in CommittedIn(log[..start]) && t !in AbortedIn(log[..start]) && ImagesOf(log[..start], {t}) == []
    && (forall i :: start <= i < |log| ==> log[i].PageImage? && log[i].txId == t)
  }
}
