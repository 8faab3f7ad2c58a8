/** Keys, entries and nodes of the B+Tree, and the orders it sorts them by. */
module IndexModel {
  import opened Core

  const MAX_KEYS: nat := 4

  datatype IndexKey = Integer(value: i64) | Text(text: Core.Text)

  datatype IndexEntry = IndexEntry(key: IndexKey, rowId: RowId)

  datatype Node =
    | Leaf(nextLeaf: Option<PageId>, entries: seq<IndexEntry>)
    | Internal(keys: seq<IndexKey>, children: seq<PageId>)

  // Strict orders

  predicate BytesLess(a: Bytes, b: Bytes) {
    b != [] && (a == [] || a[0] < b[0] || (a[0] == b[0] && BytesLess(a[1..], b[1..])))
  }

  predicate KeyLess(a: IndexKey, b: IndexKey) {
    match (a, b)
    case (Integer(x), Integer(y)) => x < y
    case (Integer(_), Text(_)) => true
    case (Text(_), Integer(_)) => false
    case (Text(x), Text(y)) => BytesLess(x, y)
  }

  predicate KeyLe(a: IndexKey, b: IndexKey) {
    !KeyLess(b, a)
  }

  predicate RowLess(a: RowId, b: RowId) {
    a.pageId < b.pageId || (a.pageId == b.pageId && a.slotId < b.slotId)
  }

  predicate EntryLess(a: IndexEntry, b: IndexEntry) {
    KeyLess(a.key, b.key) || (a.key == b.key && RowLess(a.rowId, b.rowId))
  }

  predicate EntryLe(a: IndexEntry, b: IndexEntry) {
    !EntryLess(b, a)
  }

  /** Byte order: a proper prefix first, else the smaller byte at the first difference. */
  lemma {:induction false} BytesLessMeans(a: Bytes, b: Bytes)
    ensures BytesLess(a, b) <==>
      exists n: nat :: n <= |a| && n < |b| && a[..n] == b[..n] && (n == |a| || a[n] < b[n])
  {
    if a != [] && b != [] && a[0] == b[0] {
      BytesLessMeans(a[1..], b[1..]);
      if n: nat :| n <= |a| && n < |b| && a[..n] == b[..n] && (n == |a| || a[n] < b[n]) {
        assert n > 0;
        assert a[1..][..n - 1] == a[..n][1..] && b[1..][..n - 1] == b[..n][1..];
      }
      if n: nat :| n <= |a[1..]| && n < |b[1..]| && a[1..][..n] == b[1..][..n] && (n == |a[1..]| || a[1..][n] < b[1..][n]) {
        assert a[..n + 1] == [a[0]] + a[1..][..n] && b[..n + 1] == [b[0]] + b[1..][..n];
      }
    } else {
      assert a[..0] == b[..0];
      assert forall n: nat :: 0 < n <= |a| && n < |b| && a[..n] == b[..n] ==> a[..n][0] == b[..n][0] && a[0] == b[0];
    }
  }

  lemma {:induction false} BytesTrichotomy(a: Bytes, b: Bytes)
    ensures a == b || BytesLess(a, b) || BytesLess(b, a)
    ensures !(BytesLess(a, b) && BytesLess(b, a))
    ensures a == b ==> !BytesLess(a, b)
  {
    if a != [] && b != [] && a[0] == b[0] {
      BytesTrichotomy(a[1..], b[1..]);
      assert a == [a[0]] + a[1..] && b == [b[0]] + b[1..];
    }
  }

  lemma {:induction false} BytesTransitive(a: Bytes, b: Bytes, c: Bytes)
    requires BytesLess(a, b) && BytesLess(b, c)
    ensures BytesLess(a, c)
  {
    if a != [] && a[0] == b[0] == c[0] {
      BytesTransitive(a[1..], b[1..], c[1..]);
    }
  }

  lemma KeyTrichotomy(a: IndexKey, b: IndexKey)
    ensures a == b || KeyLess(a, b) || KeyLess(b, a)
    ensures !(KeyLess(a, b) && KeyLess(b, a))
    ensures a == b ==> !KeyLess(a, b)
  {
    if a.Text? && b.Text? {
      BytesTrichotomy(a.text, b.text);
    }
  }

  lemma KeyTransitive(a: IndexKey, b: IndexKey, c: IndexKey)
    ensures KeyLess(a, b) && KeyLess(b, c) ==> KeyLess(a, c)
    ensures KeyLe(a, b) && KeyLe(b, c) ==> KeyLe(a, c)
    ensures KeyLess(a, b) && KeyLe(b, c) ==> KeyLess(a, c)
    ensures KeyLe(a, b) && KeyLess(b, c) ==> KeyLess(a, c)
  {
    KeyTrichotomy(a, b);
    KeyTrichotomy(b, c);
    KeyTrichotomy(a, c);
    if a.Text? && b.Text? && c.Text? {
      forall x, y, z | x in {a.text, b.text, c.text} && y in {a.text, b.text, c.text} && z in {a.text, b.text, c.text}
                       && BytesLess(x, y) && BytesLess(y, z)
        ensures BytesLess(x, z)
      {
        BytesTransitive(x, y, z);
      }
    }
  }

  lemma EntryTrichotomy(a: IndexEntry, b: IndexEntry)
    ensures a == b || EntryLess(a, b) || EntryLess(b, a)
    ensures !(EntryLess(a, b) && EntryLess(b, a))
  {
    KeyTrichotomy(a.key, b.key);
  }

  lemma EntryTransitive(a: IndexEntry, b: IndexEntry, c: IndexEntry)
    ensures EntryLe(a, b) && EntryLe(b, c) ==> EntryLe(a, c)
    ensures EntryLess(a, b) && EntryLe(b, c) ==> EntryLess(a, c)
    ensures EntryLe(a, b) && EntryLess(b, c) ==> EntryLess(a, c)
  {
    KeyTrichotomy(a.key, b.key);
    KeyTrichotomy(b.key, c.key);
    KeyTrichotomy(a.key, c.key);
    KeyTransitive(a.key, b.key, c.key);
    KeyTransitive(c.key, b.key, a.key);
    KeyTransitive(b.key, c.key, a.key);
    KeyTransitive(c.key, a.key, b.key);
  }

  predicate SortedKeys(keys: seq<IndexKey>) {
    forall i, j :: 0 <= i < j < |keys| ==> KeyLe(keys[i], keys[j])
  }

  predicate SortedEntries(entries: seq<IndexEntry>) {
    forall i, j :: 0 <= i < j < |entries| ==> EntryLe(entries[i], entries[j])
  }
}
