/** How each appended record changes what redo would apply. */
module Redo {
  import opened Core
  import opened WalModel

  lemma {:induction false} CommittedConcat<I>(a: seq<RecordKind<I>>, b: seq<RecordKind<I>>)
    ensures CommittedIn(a + b) == CommittedIn(a) + CommittedIn(b)
    ensures AbortedIn(a + b) == AbortedIn(a) + AbortedIn(b)
  {
    if a == [] {
      assert a + b == b;
    } else {
      CommittedConcat(a[1..], b);
      assert (a + b)[0] == a[0] && (a + b)[1..] == a[1..] + b;
    }
  }

  lemma {:induction false} ImagesConcat<I>(a: seq<RecordKind<I>>, b: seq<RecordKind<I>>, done: set<TxId>)
    ensures ImagesOf(a + b, done) == ImagesOf(a, done) + ImagesOf(b, done)
  {
    if a == [] {
      assert a + b == b;
    } else {
      ImagesConcat(a[1..], b, done);
      assert (a + b)[0] == a[0] && (a + b)[1..] == a[1..] + b;
      var head := if a[0].PageImage? && a[0].txId in done then [Write(a[0].pageId, a[0].image)] else [];
      assert head + (ImagesOf(a[1..], done) + ImagesOf(b, done)) == head + ImagesOf(a[1..], done) + ImagesOf(b, done);
    }
  }

  /** A transaction without images may join or leave `done` unseen. */
  lemma {:induction false} ImagesWithout<I>(log: seq<RecordKind<I>>, done: set<TxId>, t: TxId)
    requires ImagesOf(log, {t}) == []
    ensures ImagesOf(log, done + {t}) == ImagesOf(log, done - {t}) == ImagesOf(log, done)
  {
    if log != [] {
      ImagesWithout(log[1..], done, t);
    }
  }

  lemma {:induction false} ImagesSole<I>(log: seq<RecordKind<I>>, done: set<TxId>, t: TxId)
    requires forall i :: 0 <= i < |log| ==> log[i].PageImage? && log[i].txId == t
    ensures ImagesOf(log, done) == if t in done then ImagesOf(log, {t}) else []
  {
    if log != [] {
      ImagesSole(log[1..], done, t);
    }
  }

  lemma {:induction false} SuffixMarks<I>(log: seq<RecordKind<I>>)
    requires forall i :: 0 <= i < |log| ==> log[i].PageImage?
    ensures CommittedIn(log) == {} && AbortedIn(log) == {}
  {
    if log != [] {
      SuffixMarks(log[1..]);
    }
  }

  lemma SingleRecord<I>(r: RecordKind<I>)
    ensures CommittedIn([r]) == (if r.CommitTx? then {r.txId} else {})
    ensures AbortedIn([r]) == (if r.AbortTx? then {r.txId} else {})
    ensures forall done :: ImagesOf([r], done) ==
              if r.PageImage? && r.txId in done then [Write(r.pageId, r.image)] else []
  {
    assert [r][1..] == [];
  }

  /** The log ends transaction `t` with a commit marker and holds no abort marker of it. */
  ghost predicate Committed<I(!new)>(log: seq<RecordKind<I>>, t: TxId) {
    CommitTx(t) in log && AbortTx(t) !in log
  }

  lemma {:induction false} MarkersIn<I(!new)>(log: seq<RecordKind<I>>, t: TxId)
    ensures t in CommittedIn(log) <==> CommitTx(t) in log
    ensures t in AbortedIn(log) <==> AbortTx(t) in log
  {
    if log != [] {
      MarkersIn(log[1..], t);
      assert log == [log[0]] + log[1..];
    }
  }

  lemma CommittedMeans<I(!new)>(log: seq<RecordKind<I>>)
    ensures forall t :: t in CommittedIn(log) - AbortedIn(log) <==> Committed(log, t)
  {
    forall t ensures t in CommittedIn(log) - AbortedIn(log) <==> Committed(log, t) {
      MarkersIn(log, t);
    }
  }

  /** Record `i` is an image of a transaction in `done`. */
  ghost predicate ImageAt<I(!new)>(log: seq<RecordKind<I>>, done: set<TxId>, i: nat) {
    i < |log| && log[i].PageImage? && log[i].txId in done
  }

  /** It is the last one of page `p`. */
  ghost predicate LastImageAt<I(!new)>(log: seq<RecordKind<I>>, done: set<TxId>, p: PageId, i: nat) {
    && ImageAt(log, done, i) && log[i].pageId == p
    && forall j: nat :: i < j < |log| && ImageAt(log, done, j) ==> log[j].pageId != p
  }

  /** Replaying the images leaves on each page the last one of it. */
  lemma {:induction false} CollapseOfLog<I(!new)>(log: seq<RecordKind<I>>, done: set<TxId>, p: PageId)
    ensures var after := Collapse(ImagesOf(log, done));
      if p in after then exists i: nat :: LastImageAt(log, done, p, i) && after[p] == log[i].image
      else forall i: nat :: ImageAt(log, done, i) ==> log[i].pageId != p
  {
    if log != [] {
      var n := |log| - 1;
      var before, last := log[..n], log[n];
      assert log == before + [last];
      CollapseOfLog(before, done, p);
      ImagesConcat(before, [last], done);
      SingleRecord(last);
      var images := ImagesOf(before, done);
      if ImageAt(log, done, n) {
        assert (images + [Write(last.pageId, last.image)])[..|images|] == images;
        assert Collapse(ImagesOf(log, done)) == Collapse(images)[last.pageId := last.image];
      } else {
        assert ImagesOf(log, done) == images;
      }
      if ImageAt(log, done, n) && last.pageId == p {
        assert LastImageAt(log, done, p, n);
      } else if p in Collapse(images) {
        var i: nat :| LastImageAt(before, done, p, i) && Collapse(images)[p] == before[i].image;
        assert LastImageAt(log, done, p, i);
      } else {
        forall i: nat | ImageAt(log, done, i) ensures log[i].pageId != p {
          assert i < n ==> ImageAt(before, done, i);
        }
      }
    }
  }

  lemma {:induction false} ImageListed<I(!new)>(log: seq<RecordKind<I>>, done: set<TxId>, w: Write<I>)
    ensures w in ImagesOf(log, done) <==> exists i: nat :: ImageAt(log, done, i) && Write(log[i].pageId, log[i].image) == w
  {
    if log != [] {
      ImageListed(log[1..], done, w);
      if i: nat :| ImageAt(log, done, i) && Write(log[i].pageId, log[i].image) == w {
        assert i > 0 ==> ImageAt(log[1..], done, i - 1) && log[1..][i - 1] == log[i];
      }
      if i: nat :| ImageAt(log[1..], done, i) && Write(log[1..][i].pageId, log[1..][i].image) == w {
        assert ImageAt(log, done, i + 1) && log[i + 1] == log[1..][i];
      }
      assert ImageAt(log, done, 0) <==> log[0].PageImage? && log[0].txId in done;
    }
  }

  /** Appending anything but a commit marker, for a transaction not yet committed, changes nothing. */
  lemma NeutralAppend<I>(log: seq<RecordKind<I>>, r: RecordKind<I>)
    requires !r.CommitTx?
    requires r.PageImage? || r.AbortTx? ==> r.txId !in CommittedIn(log)
    ensures Effect(log + [r]) == Effect(log)
  {
    CommittedConcat(log, [r]);
    SingleRecord(r);
    var done := CommittedIn(log) - AbortedIn(log);
    assert CommittedIn(log + [r]) - AbortedIn(log + [r]) == done;
    ImagesConcat(log, [r], done);
  }

  /** The commit marker of the transaction whose images end the log makes exactly those images take effect, last. */
  lemma CommitAppend<I>(log: seq<RecordKind<I>>, start: nat, t: TxId)
    requires OwnSuffix(log, start, t)
    ensures Effect(log + [CommitTx(t)]) == Effect(log) + ImagesOf(log[start..], {t})
    ensures ImagesOf(log, {t}) == ImagesOf(log[start..], {t})
  {
    hide CommittedIn, AbortedIn, ImagesOf;
    var pre, own, all := log[..start], log[start..], log + [CommitTx(t)];
    assert log == pre + own;
    CommittedConcat(pre, own);
    CommittedConcat(log, [CommitTx(t)]);
    SuffixMarks(own);
    SingleRecord<I>(CommitTx(t));
    var done := CommittedIn(log) - AbortedIn(log);
    assert CommittedIn(all) - AbortedIn(all) == done + {t};
    ImagesConcat(log, [CommitTx(t)], done + {t});
    ImagesConcat(pre, own, done + {t});
    ImagesConcat(pre, own, done);
    ImagesConcat(pre, own, {t});
    ImagesWithout(pre, done, t);
    ImagesSole(own, done + {t}, t);
    ImagesSole(own, done, t);
  }

  lemma {:induction false} CollapseConcat<I>(a: seq<Write<I>>, b: seq<Write<I>>)
    ensures Collapse(a + b) == Collapse(a) + Collapse(b)
  {
    if b == [] {
      assert a + b == a;
    } else {
      var n := |a + b| - 1;
      CollapseConcat(a, b[..|b| - 1]);
      assert (a + b)[..n] == a + b[..|b| - 1] && (a + b)[n] == b[|b| - 1];
    }
  }

  lemma CommitCountAppend<I>(log: seq<RecordKind<I>>, r: RecordKind<I>)
    ensures CommitCount(log + [r]) == CommitCount(log) + if r.CommitTx? then 1 else 0
  {
    assert (log + [r])[..|log|] == log;
  }

  lemma {:induction false} CommitCountMonotone<I>(log: seq<RecordKind<I>>, m: nat, n: nat)
    requires m <= n <= |log|
    ensures CommitCount(log[..m]) <= CommitCount(log[..n])
    decreases n
  {
    if m < n {
      CommitCountMonotone(log, m, n - 1);
      assert log[..n] == log[..n - 1] + [log[n - 1]];
      CommitCountAppend(log[..n - 1], log[n - 1]);
    }
  }

  // Transaction ids a log knows nothing of

  /** The log says nothing about `t` that redo would act on. */
  ghost predicate Quiet<I>(log: seq<RecordKind<I>>, t: TxId) {
    t !in CommittedIn(log) && t !in AbortedIn(log) && ImagesOf(log, {t}) == []
  }

  ghost predicate QuietFrom<I>(log: seq<RecordKind<I>>, first: TxId) {
    forall t: TxId :: first <= t ==> Quiet(log, t)
  }

  lemma QuietAppend<I>(log: seq<RecordKind<I>>, r: RecordKind<I>, t: TxId)
    requires Quiet(log, t)
    requires r.PageImage? || r.CommitTx? || r.AbortTx? ==> r.txId != t
    ensures Quiet(log + [r], t)
  {
    CommittedConcat(log, [r]);
    ImagesConcat(log, [r], {t});
    SingleRecord(r);
  }

  /** A record of an earlier transaction, or a begin marker. */
  lemma QuietFromAppend<I>(log: seq<RecordKind<I>>, r: RecordKind<I>, first: TxId)
    requires QuietFrom(log, first)
    requires r.PageImage? || r.CommitTx? || r.AbortTx? ==> r.txId < first
    ensures QuietFrom(log + [r], first)
  {
    hide Quiet;
    forall t: TxId | first <= t ensures Quiet(log + [r], t) {
      assert Quiet(log, t);
      QuietAppend(log, r, t);
    }
  }
}
