/** The bytes of a slotted page: header, slot directory growing up, records packed from the end. */
module PageBytes {
  import opened Core
  import opened SlottedModel

  const PAGE_MAGIC: u32 := 0x5244_4250 // "RDBP"
  const PAGE_VERSION: u16 := 1

  const OFF_MAGIC: nat := 0
  const OFF_VERSION: nat := 4
  const OFF_PAGE_TYPE: nat := 6
  const OFF_PAGE_ID: nat := 8
  const OFF_PAGE_LSN: nat := 16
  const OFF_FREE_START: nat := 24
  const OFF_FREE_END: nat := 26
  const OFF_SLOT_COUNT: nat := 28
  const OFF_CHECKSUM: nat := 30

  const SLOT_UNUSED: u16 := 0
  const SLOT_LIVE: u16 := 1
  const SLOT_DEAD: u16 := 2

  datatype PageType = FileHeaderPage | HeapPageType | CatalogPageType | FreeMapPage | IndexPageType

  function TypeCode(t: PageType): u16 {
    match t
    case FileHeaderPage => 1
    case HeapPageType => 2
    case CatalogPageType => 3
    case FreeMapPage => 4
    case IndexPageType => 5
  }

  function TypeOfCode(code: u16): Option<PageType> {
    if code == 1 then Some(FileHeaderPage)
    else if code == 2 then Some(HeapPageType)
    else if code == 3 then Some(CatalogPageType)
    else if code == 4 then Some(FreeMapPage)
    else if code == 5 then Some(IndexPageType)
    else None
  }

  // Reading

  function U16At(b: Bytes, o: nat): u16
    requires o + 2 <= |b|
  {
    var high: int := b[o + 1];
    b[o] + 0x100 * high
  }

  function U32At(b: Bytes, o: nat): u32
    requires o + 4 <= |b|
  {
    var high: int := U16At(b, o + 2);
    U16At(b, o) + 0x1_0000 * high
  }

  function U64At(b: Bytes, o: nat): u64
    requires o + 8 <= |b|
  {
    var high: int := U32At(b, o + 4);
    U32At(b, o) + 0x1_0000_0000 * high
  }

  datatype PageHeader = PageHeader(
    pageId: PageId, pageLsn: Lsn, pageType: PageType, freeStart: u16, freeEnd: u16, slotCount: u16, checksum: u32)

  /** The header, after its shape checks. */
  function HeaderOf(b: Bytes): (r: Result<PageHeader>)
    requires |b| == PAGE_SIZE
    ensures r.Ok? ==>
      r.value.freeStart == HEADER_SIZE + SLOT_SIZE * r.value.slotCount && r.value.freeStart <= r.value.freeEnd <= PAGE_SIZE
  {
    var freeStart, freeEnd, slotCount := U16At(b, OFF_FREE_START), U16At(b, OFF_FREE_END), U16At(b, OFF_SLOT_COUNT);
    if U32At(b, OFF_MAGIC) != PAGE_MAGIC || U16At(b, OFF_VERSION) != PAGE_VERSION then Err(Corruption)
    else if freeStart != HEADER_SIZE + SLOT_SIZE * slotCount then Err(Corruption)
    else if freeStart > freeEnd || freeEnd > PAGE_SIZE then Err(Corruption)
    else
      match TypeOfCode(U16At(b, OFF_PAGE_TYPE))
      case None => Err(Corruption)
      case Some(pageType) =>
        Ok(PageHeader(U64At(b, OFF_PAGE_ID), U64At(b, OFF_PAGE_LSN), pageType, freeStart, freeEnd, slotCount, U32At(b, OFF_CHECKSUM)))
  }

  datatype SlotEntry = SlotEntry(offset: u16, len: u16, flags: u16)

  function EntryAt(b: Bytes, i: nat): SlotEntry
    requires HEADER_SIZE + SLOT_SIZE * (i + 1) <= |b|
  {
    var o := HEADER_SIZE + SLOT_SIZE * i;
    SlotEntry(U16At(b, o), U16At(b, o + 2), U16At(b, o + 4))
  }

  /** What validation asks of one slot. */
  predicate EntryOk(e: SlotEntry, freeEnd: nat) {
    && (e.flags == SLOT_UNUSED || e.flags == SLOT_LIVE || e.flags == SLOT_DEAD)
    && (e.flags == SLOT_LIVE ==> freeEnd <= e.offset && e.offset + e.len <= PAGE_SIZE)
  }

  // Checksum

  function ByteSum(b: Bytes): nat {
    if b == [] then 0 else b[0] + ByteSum(b[1..])
  }

  function Checksum(b: Bytes): u32 {
    ByteSum(b) % 0x1_0000_0000
  }

  /** The page with its checksum field zeroed. */
  function Cleared(b: Bytes): Bytes
    requires |b| == PAGE_SIZE
  {
    b[..OFF_CHECKSUM] + [0, 0, 0, 0] + b[HEADER_SIZE..]
  }

  predicate ChecksumOk(b: Bytes)
    requires |b| == PAGE_SIZE
  {
    U32At(b, OFF_CHECKSUM) == Checksum(Cleared(b))
  }

  /** Accepted by validation. */
  predicate Validates(b: Bytes)
    requires |b| == PAGE_SIZE
  {
    && HeaderOf(b).Ok? && ChecksumOk(b)
    && forall i :: 0 <= i < HeaderOf(b).value.slotCount ==> EntryOk(EntryAt(b, i), HeaderOf(b).value.freeEnd)
  }

  lemma {:induction false} ByteSumUpdate(b: Bytes, i: nat, x: u8)
    requires i < |b|
    ensures ByteSum(b[i := x]) == ByteSum(b) - b[i] + x
  {
    if i == 0 {
      assert b[i := x][1..] == b[1..];
    } else {
      ByteSumUpdate(b[1..], i - 1, x);
      assert b[i := x][1..] == b[1..][i - 1 := x];
    }
  }

  lemma {:induction false} ByteSumBound(b: Bytes)
    ensures ByteSum(b) <= 255 * |b|
  {
    if b != [] {
      ByteSumBound(b[1..]);
    }
  }

  lemma {:induction false} ByteSumAppend(b: Bytes, x: u8)
    ensures ByteSum(b + [x]) == ByteSum(b) + x
  {
    if b == [] {
      assert ByteSum([x]) == x + ByteSum([x][1..]);
    } else {
      ByteSumAppend(b[1..], x);
      assert (b + [x])[1..] == b[1..] + [x];
    }
  }

  /** Changing one byte, the checksum's own included, leaves a checksum that does not match. */
  lemma OneByteBreaksChecksum(b: Bytes, i: nat, x: u8)
    requires |b| == PAGE_SIZE && ChecksumOk(b) && i < PAGE_SIZE && x != b[i]
    ensures !ChecksumOk(b[i := x])
  {
    var c := b[i := x];
    if OFF_CHECKSUM <= i < HEADER_SIZE {
      assert Cleared(c) == Cleared(b);
    } else {
      assert Cleared(c) == Cleared(b)[i := x];
      ByteSumUpdate(Cleared(b), i, x);
      ByteSumBound(Cleared(b));
      ByteSumBound(Cleared(c));
    }
  }

  /** Every single-byte corruption of an accepted page is rejected. */
  lemma OneByteIsCaught(b: Bytes, c: Bytes, i: nat)
    requires |b| == |c| == PAGE_SIZE && Validates(b) && i < PAGE_SIZE
    requires b[i] != c[i] && forall j :: 0 <= j < PAGE_SIZE && j != i ==> c[j] == b[j]
    ensures !Validates(c)
  {
    assert c == b[i := c[i]];
    OneByteBreaksChecksum(b, i, c[i]);
  }

  // What the operations of a page keep

  function SlotAt(b: Bytes, i: nat): Slot
    requires HEADER_SIZE + SLOT_SIZE * (i + 1) <= |b| == PAGE_SIZE
    requires EntryAt(b, i).flags == SLOT_LIVE ==> EntryAt(b, i).offset + EntryAt(b, i).len <= PAGE_SIZE
  {
    var e := EntryAt(b, i);
    if e.flags == SLOT_LIVE then Live(b[e.offset..e.offset + e.len]) else Dead
  }

  /** No two records share a byte. */
  predicate Apart(d: SlotEntry, e: SlotEntry) {
    d.flags == SLOT_LIVE && e.flags == SLOT_LIVE ==> d.offset + d.len <= e.offset || e.offset + e.len <= d.offset
  }

  ghost predicate Directory(b: Bytes)
    requires |b| == PAGE_SIZE && HeaderOf(b).Ok?
  {
    var n, freeEnd := HeaderOf(b).value.slotCount, HeaderOf(b).value.freeEnd;
    && (forall i :: 0 <= i < n ==> EntryOk(EntryAt(b, i), freeEnd) && EntryAt(b, i).flags != SLOT_UNUSED)
    && (forall i, j :: 0 <= i < j < n ==> Apart(EntryAt(b, i), EntryAt(b, j)))
  }

  ghost function SlotsOf(b: Bytes): (s: seq<Slot>)
    requires |b| == PAGE_SIZE && HeaderOf(b).Ok? && Directory(b)
    ensures |s| == HeaderOf(b).value.slotCount
    ensures forall i :: 0 <= i < |s| ==> s[i] == SlotAt(b, i)
  {
    seq(HeaderOf(b).value.slotCount, i requires 0 <= i < HeaderOf(b).value.slotCount => SlotAt(b, i))
  }

  ghost function RowsIn(b: Bytes): Slotted
    requires |b| == PAGE_SIZE && HeaderOf(b).Ok? && Directory(b)
  {
    Slotted(HeaderOf(b).value.freeEnd, SlotsOf(b))
  }

  /** A page some sequence of operations made: valid, records apart, and the record area large enough for them all. */
  ghost predicate Sane(b: Bytes) {
    && |b| == PAGE_SIZE && HeaderOf(b).Ok? && ChecksumOk(b) && Directory(b)
    && HeaderOf(b).value.freeEnd + LiveBytes(SlotsOf(b)) <= PAGE_SIZE
  }

  lemma SaneValidates(b: Bytes)
    requires Sane(b)
    ensures Validates(b) && RowsIn(b).Sound()
  {
  }

  lemma {:induction false} LiveBytesUpdate(slots: seq<Slot>, i: nat, s: Slot)
    requires i < |slots|
    ensures LiveBytes(slots[i := s]) + LiveBytes([slots[i]]) == LiveBytes(slots) + LiveBytes([s])
  {
    if i == 0 {
      assert slots[i := s][1..] == slots[1..];
      assert [s][1..] == [] && [slots[0]][1..] == [];
    } else {
      LiveBytesUpdate(slots[1..], i - 1, s);
      assert slots[i := s][1..] == slots[1..][i - 1 := s];
    }
  }

  lemma {:induction false} LiveBytesConcat(a: seq<Slot>, b: seq<Slot>)
    ensures LiveBytes(a + b) == LiveBytes(a) + LiveBytes(b)
  {
    if a == [] {
      assert a + b == b;
    } else {
      LiveBytesConcat(a[1..], b);
      assert (a + b)[0] == a[0] && (a + b)[1..] == a[1..] + b;
    }
  }

  lemma LiveBytesOne(s: Slot)
    ensures LiveBytes([s]) == if s.Live? then |s.record| else 0
  {
    assert [s][1..] == [];
  }

  // Insert

  /** `c` is `b` with `record` stored in slot `i`, but for the checksum. */
  ghost predicate StoredIn(b: Bytes, c: Bytes, record: Bytes, i: nat) {
    && |b| == |c| == PAGE_SIZE && HeaderOf(b).Ok?
    && var h := HeaderOf(b).value;
    && i <= h.slotCount && h.freeStart + |record| + (if i == h.slotCount then SLOT_SIZE else 0) <= h.freeEnd
    && var n := if i == h.slotCount then h.slotCount + 1 else h.slotCount;
    && var o := h.freeEnd - |record|;
    && c[..OFF_FREE_START] == b[..OFF_FREE_START]
    && U16At(c, OFF_FREE_START) == HEADER_SIZE + SLOT_SIZE * n
    && U16At(c, OFF_FREE_END) == o && U16At(c, OFF_SLOT_COUNT) == n
    && EntryAt(c, i) == SlotEntry(o, |record|, SLOT_LIVE)
    && (forall j :: 0 <= j < h.slotCount && j != i ==> EntryAt(c, j) == EntryAt(b, j))
    && c[o..h.freeEnd] == record && c[h.freeEnd..] == b[h.freeEnd..]
  }

  lemma StoredHeader(b: Bytes, c: Bytes, record: Bytes, i: nat)
    requires StoredIn(b, c, record, i)
    ensures HeaderOf(c).Ok?
    ensures var g, h := HeaderOf(b).value, HeaderOf(c).value;
      && h.pageId == g.pageId && h.pageLsn == g.pageLsn && h.pageType == g.pageType
      && h.freeEnd == g.freeEnd - |record|
      && h.slotCount == if i == g.slotCount then g.slotCount + 1 else g.slotCount
  {
    assert forall k :: 0 <= k < OFF_FREE_START ==> c[k] == c[..OFF_FREE_START][k] == b[..OFF_FREE_START][k] == b[k];
  }

  /** A slot whose entry and record area are untouched reads the same. */
  lemma SlotKept(b: Bytes, c: Bytes, freeEnd: nat, j: nat)
    requires |b| == |c| == PAGE_SIZE && freeEnd <= PAGE_SIZE && c[freeEnd..] == b[freeEnd..]
    requires HEADER_SIZE + SLOT_SIZE * (j + 1) <= PAGE_SIZE && EntryAt(c, j) == EntryAt(b, j)
    requires EntryOk(EntryAt(b, j), freeEnd)
    ensures SlotAt(c, j) == SlotAt(b, j)
  {
    hide U16At;
    var e := EntryAt(b, j);
    if e.flags == SLOT_LIVE {
      SliceTail(b, c, freeEnd, e.offset, e.offset + e.len);
    }
  }

  lemma StoredDirectory(b: Bytes, c: Bytes, record: Bytes, i: nat)
    requires Sane(b) && StoredIn(b, c, record, i) && HeaderOf(c).Ok?
    requires HeaderOf(c).value.freeEnd == HeaderOf(b).value.freeEnd - |record|
    requires HeaderOf(c).value.slotCount ==
             if i == HeaderOf(b).value.slotCount then i + 1 else HeaderOf(b).value.slotCount
    ensures Directory(c)
  {
    hide HeaderOf, EntryAt, SlotsOf, LiveBytes, ChecksumOk;
    var g, h := HeaderOf(b).value, HeaderOf(c).value;
    forall j | 0 <= j < g.slotCount && j != i
      ensures EntryOk(EntryAt(c, j), h.freeEnd) && EntryAt(c, j).flags != SLOT_UNUSED
      ensures Apart(EntryAt(c, i), EntryAt(c, j)) && Apart(EntryAt(c, j), EntryAt(c, i))
    {
      assert EntryOk(EntryAt(b, j), g.freeEnd);
    }
    forall j, k | 0 <= j < k < h.slotCount ensures Apart(EntryAt(c, j), EntryAt(c, k)) {
      if j != i && k != i {
        assert Apart(EntryAt(b, j), EntryAt(b, k));
      }
    }
  }

  lemma StoredSlots(b: Bytes, c: Bytes, record: Bytes, i: nat)
    requires Sane(b) && StoredIn(b, c, record, i) && i <= HeaderOf(b).value.slotCount
    requires i < HeaderOf(b).value.slotCount ==> EntryAt(b, i).flags == SLOT_DEAD
    ensures HeaderOf(c).Ok? && Directory(c)
    ensures SlotsOf(c) == if i < |SlotsOf(b)| then SlotsOf(b)[i := Live(record)] else SlotsOf(b) + [Live(record)]
  {
    StoredHeader(b, c, record, i);
    StoredDirectory(b, c, record, i);
    StoredSlot(b, c, record, i);
    hide HeaderOf, EntryAt, Sane, Directory, SlotAt, StoredIn, SlotsOf;
    var s, t := SlotsOf(b), SlotsOf(c);
    forall j | 0 <= j < |s| && j != i ensures t[j] == s[j] {
      StoredKept(b, c, record, i, j);
    }
    assert t[i] == Live(record);
    if i < |s| {
      assert t == s[i := Live(record)];
    } else {
      assert t == s + [Live(record)];
    }
  }

  lemma StoredKept(b: Bytes, c: Bytes, record: Bytes, i: nat, j: nat)
    requires Sane(b) && StoredIn(b, c, record, i) && HeaderOf(c).Ok? && Directory(c)
    requires j < HeaderOf(b).value.slotCount && j != i && j < HeaderOf(c).value.slotCount
    ensures SlotsOf(c)[j] == SlotsOf(b)[j]
  {
    hide HeaderOf, EntryAt, ChecksumOk, LiveBytes, Apart;
    assert EntryOk(EntryAt(b, j), HeaderOf(b).value.freeEnd);
    SlotKept(b, c, HeaderOf(b).value.freeEnd, j);
  }

  lemma StoredSlot(b: Bytes, c: Bytes, record: Bytes, i: nat)
    requires StoredIn(b, c, record, i)
    ensures SlotAt(c, i) == Live(record)
  {
    hide HeaderOf, EntryAt;
    var g := HeaderOf(b).value;
    assert c[g.freeEnd - |record|..g.freeEnd - |record| + |record|] == record;
  }

  lemma SliceTail(b: Bytes, c: Bytes, from: nat, lo: nat, hi: nat)
    requires |b| == |c| && from <= lo <= hi <= |b| && c[from..] == b[from..]
    ensures c[lo..hi] == b[lo..hi]
  {
    assert forall k :: from <= k < |b| ==> c[k] == c[from..][k - from] == b[from..][k - from] == b[k];
  }

  /** Storing a record in the lowest dead slot, or a fresh one, is the slot map's insert. */
  lemma StoredIsInserted(b: Bytes, c: Bytes, record: Bytes, i: nat)
    requires Sane(b) && StoredIn(b, c, record, i) && ChecksumOk(c) && i == FirstDead(SlotsOf(b))
    ensures Sane(c) && RowsIn(b).Sound() && HasRoom(RowsIn(b), record) && RowsIn(c) == Inserted(RowsIn(b), record)
  {
    DeadEntry(b, i);
    StoredSlots(b, c, record, i);
    StoredHeader(b, c, record, i);
    hide HeaderOf, EntryAt, SlotsOf, ChecksumOk, Directory;
    InsertedBudget(RowsIn(b), RowsIn(c), record);
  }

  lemma InsertedBudget(p: Slotted, q: Slotted, record: Bytes)
    requires p.Sound() && p.freeEnd + LiveBytes(p.slots) <= PAGE_SIZE
    requires q.FreeStart() + |record| <= p.freeEnd && q.freeEnd == p.freeEnd - |record|
    requires var i := FirstDead(p.slots);
      q.slots == if i < |p.slots| then p.slots[i := Live(record)] else p.slots + [Live(record)]
    ensures HasRoom(p, record) && q == Inserted(p, record) && q.freeEnd + LiveBytes(q.slots) <= PAGE_SIZE
  {
    hide FirstDead;
    var i := FirstDead(p.slots);
    LiveBytesOne(Live(record));
    if i < |p.slots| {
      LiveBytesUpdate(p.slots, i, Live(record));
      LiveBytesOne(p.slots[i]);
    } else {
      LiveBytesConcat(p.slots, [Live(record)]);
    }
  }

  lemma DeadEntry(b: Bytes, i: nat)
    requires Sane(b)
    ensures i < HeaderOf(b).value.slotCount ==> (SlotsOf(b)[i].Dead? <==> EntryAt(b, i).flags == SLOT_DEAD)
    ensures |SlotsOf(b)| == HeaderOf(b).value.slotCount
  {
  }

  // Delete

  ghost predicate KilledIn(b: Bytes, c: Bytes, i: nat) {
    && |b| == |c| == PAGE_SIZE && HeaderOf(b).Ok? && i < HeaderOf(b).value.slotCount
    && c[..OFF_CHECKSUM] == b[..OFF_CHECKSUM]
    && EntryAt(c, i) == EntryAt(b, i).(flags := SLOT_DEAD)
    && (forall j :: 0 <= j < HeaderOf(b).value.slotCount && j != i ==> EntryAt(c, j) == EntryAt(b, j))
    && c[HeaderOf(b).value.freeEnd..] == b[HeaderOf(b).value.freeEnd..]
  }

  lemma KilledHeader(b: Bytes, c: Bytes, i: nat)
    requires KilledIn(b, c, i)
    ensures HeaderOf(c).Ok? && HeaderOf(c).value == HeaderOf(b).value.(checksum := HeaderOf(c).value.checksum)
  {
    assert forall k :: 0 <= k < OFF_CHECKSUM ==> c[k] == c[..OFF_CHECKSUM][k] == b[..OFF_CHECKSUM][k] == b[k];
  }

  lemma KilledIsDeleted(b: Bytes, c: Bytes, i: nat)
    requires Sane(b) && KilledIn(b, c, i) && ChecksumOk(c)
    ensures Sane(c) && i < |SlotsOf(b)| && RowsIn(c) == Deleted(RowsIn(b), i)
  {
    KilledHeader(b, c, i);
    hide HeaderOf, EntryAt, ChecksumOk, LiveBytes, Apart;
    var g := HeaderOf(b).value;
    KilledDirectory(b, c, i);
    forall j | 0 <= j < g.slotCount && j != i ensures SlotAt(c, j) == SlotAt(b, j) {
      assert EntryOk(EntryAt(b, j), g.freeEnd);
      SlotKept(b, c, g.freeEnd, j);
    }
    assert SlotsOf(c) == SlotsOf(b)[i := Dead];
    LiveBytesUpdate(SlotsOf(b), i, Dead);
    LiveBytesOne(Dead);
  }

  lemma KilledDirectory(b: Bytes, c: Bytes, i: nat)
    requires Sane(b) && KilledIn(b, c, i) && HeaderOf(c).Ok?
    requires HeaderOf(c).value == HeaderOf(b).value.(checksum := HeaderOf(c).value.checksum)
    ensures Directory(c)
  {
    hide HeaderOf, EntryAt, ChecksumOk, LiveBytes, SlotsOf;
    var g := HeaderOf(b).value;
    forall j, k | 0 <= j < k < g.slotCount ensures Apart(EntryAt(c, j), EntryAt(c, k)) {
      assert Apart(EntryAt(b, j), EntryAt(b, k));
    }
  }

  // Compact

  function PackedOffset(slots: seq<Slot>, k: nat): int
    requires k <= |slots|
  {
    PAGE_SIZE - LiveBytes(slots[..k])
  }

  lemma PackedStep(slots: seq<Slot>, k: nat)
    requires k < |slots|
    ensures PackedOffset(slots, k + 1) == PackedOffset(slots, k) - if slots[k].Live? then |slots[k].record| else 0
  {
    assert slots[..k + 1] == slots[..k] + [slots[k]];
    LiveBytesConcat(slots[..k], [slots[k]]);
    LiveBytesOne(slots[k]);
  }

  lemma {:induction false} PackedMonotone(slots: seq<Slot>, j: nat, k: nat)
    requires j <= k <= |slots|
    ensures PackedOffset(slots, k) <= PackedOffset(slots, j)
    decreases k
  {
    if j < k {
      PackedStep(slots, k - 1);
      PackedMonotone(slots, j, k - 1);
    }
  }

  /** Slot `j` is where compaction puts it: packed below its predecessors, or dead as before. */
  ghost predicate PackedSlot(b: Bytes, c: Bytes, slots: seq<Slot>, j: nat)
    requires |b| == |c| == PAGE_SIZE && j < |slots| && HEADER_SIZE + SLOT_SIZE * |slots| <= PAGE_SIZE
  {
    match slots[j]
    case Dead => EntryAt(c, j) == EntryAt(b, j)
    case Live(record) =>
      var o := PackedOffset(slots, j + 1);
      0 <= o && o + |record| <= PAGE_SIZE && EntryAt(c, j) == SlotEntry(o, |record|, SLOT_LIVE) && c[o..o + |record|] == record
  }

  /** `c` is `b` compacted, but for the checksum. */
  ghost predicate PackedIn(b: Bytes, c: Bytes) {
    && Sane(b) && |c| == PAGE_SIZE
    && var slots := SlotsOf(b);
    && var freeStart, freeEnd := HEADER_SIZE + SLOT_SIZE * |slots|, PackedOffset(slots, |slots|);
    && c[..OFF_FREE_END] == b[..OFF_FREE_END]
    && freeStart <= freeEnd && U16At(c, OFF_FREE_END) == freeEnd && U16At(c, OFF_SLOT_COUNT) == |slots|
    && (forall j :: 0 <= j < |slots| ==> PackedSlot(b, c, slots, j))
    && (forall k :: freeStart <= k < freeEnd ==> c[k] == 0)
  }

  lemma PackedHeader(b: Bytes, c: Bytes)
    requires PackedIn(b, c)
    ensures HeaderOf(c).Ok?
    ensures var g, h := HeaderOf(b).value, HeaderOf(c).value;
      && h == g.(freeEnd := PackedOffset(SlotsOf(b), |SlotsOf(b)|), checksum := h.checksum)
  {
    hide SlotsOf, Directory, ChecksumOk, PackedSlot;
    assert forall k :: 0 <= k < OFF_FREE_END ==> c[k] == c[..OFF_FREE_END][k] == b[..OFF_FREE_END][k] == b[k];
  }

  lemma PackedDirectory(b: Bytes, c: Bytes)
    requires PackedIn(b, c) && HeaderOf(c).Ok? && HeaderOf(c).value.slotCount == |SlotsOf(b)|
    requires HeaderOf(c).value.freeEnd == PackedOffset(SlotsOf(b), |SlotsOf(b)|)
    ensures Directory(c) && SlotsOf(c) == SlotsOf(b)
  {
    hide HeaderOf, EntryAt, ChecksumOk, PackedOffset;
    var slots := SlotsOf(b);
    forall j | 0 <= j < |slots|
      ensures EntryOk(EntryAt(c, j), HeaderOf(c).value.freeEnd) && EntryAt(c, j).flags != SLOT_UNUSED
      ensures SlotAt(c, j) == slots[j]
    {
      PackedMonotone(slots, j + 1, |slots|);
      assert PackedSlot(b, c, slots, j);
      assert slots[j] == SlotAt(b, j);
    }
    forall i, j | 0 <= i < j < |slots| ensures Apart(EntryAt(c, i), EntryAt(c, j)) {
      assert PackedSlot(b, c, slots, i) && PackedSlot(b, c, slots, j);
      PackedStep(slots, j);
      PackedMonotone(slots, i + 1, j);
      assert slots[i] == SlotAt(b, i) && slots[j] == SlotAt(b, j);
    }
  }

  /** Compaction keeps every slot and leaves all free space in one piece. */
  lemma PackedIsCompacted(b: Bytes, c: Bytes)
    requires PackedIn(b, c) && ChecksumOk(c)
    ensures Sane(c) && RowsIn(c) == Compacted(RowsIn(b))
    ensures RowsIn(c).FreeSpace() == PAGE_SIZE - HEADER_SIZE - SLOT_SIZE * |SlotsOf(b)| - LiveBytes(SlotsOf(b))
    ensures RowsIn(b).FreeSpace() <= RowsIn(c).FreeSpace()
  {
    PackedHeader(b, c);
    PackedDirectory(b, c);
    var slots := SlotsOf(b);
    assert slots[..|slots|] == slots;
  }

  // Compacting twice

  /** Some record covers byte `k` of a packed record area. */
  lemma {:induction false} Covered(slots: seq<Slot>, n: nat, k: nat) returns (j: nat)
    requires n <= |slots| && PackedOffset(slots, n) <= k < PAGE_SIZE
    ensures j < n && slots[j].Live? && PackedOffset(slots, j + 1) <= k < PackedOffset(slots, j + 1) + |slots[j].record|
    decreases n
  {
    assert n > 0 by {
      assert slots[..0] == [];
    }
    PackedStep(slots, n - 1);
    if k < PackedOffset(slots, n - 1) {
      j := n - 1;
    } else {
      j := Covered(slots, n - 1, k);
    }
  }

  lemma SameWord(c: Bytes, d: Bytes, o: nat)
    requires |c| == |d| && o + 2 <= |c| && U16At(c, o) == U16At(d, o)
    ensures c[o] == d[o] && c[o + 1] == d[o + 1]
  {
  }

  lemma SameEntry(c: Bytes, d: Bytes, j: nat, k: nat)
    requires |c| == |d| && HEADER_SIZE + SLOT_SIZE * (j + 1) <= |c| && EntryAt(c, j) == EntryAt(d, j)
    requires HEADER_SIZE + SLOT_SIZE * j <= k < HEADER_SIZE + SLOT_SIZE * (j + 1)
    ensures c[k] == d[k]
  {
    var o := HEADER_SIZE + SLOT_SIZE * j;
    SameWord(c, d, o);
    SameWord(c, d, o + 2);
    SameWord(c, d, o + 4);
  }

  /** Byte `k` of a page already compacted stays as it is. */
  lemma RepackedByte(b: Bytes, c: Bytes, d: Bytes, k: nat)
    requires PackedIn(b, c) && ChecksumOk(c) && PackedIn(c, d) && k < PAGE_SIZE && !(OFF_CHECKSUM <= k < HEADER_SIZE)
    ensures c[k] == d[k]
  {
    PackedIsCompacted(b, c);
    var slots := SlotsOf(c);
    hide Sane, SlotsOf, HeaderOf, ChecksumOk, EntryAt, LiveBytes;
    if k < HEADER_SIZE {
      RepackedHeaderByte(b, c, d, k);
    } else if k < HEADER_SIZE + SLOT_SIZE * |slots| {
      RepackedEntryByte(b, c, d, k);
    } else if PackedOffset(slots, |slots|) <= k {
      RepackedRecordByte(b, c, d, k);
    }
  }

  lemma RepackedEntryByte(b: Bytes, c: Bytes, d: Bytes, k: nat)
    requires PackedIn(b, c) && PackedIn(c, d) && SlotsOf(b) == SlotsOf(c)
    requires HEADER_SIZE <= k < HEADER_SIZE + SLOT_SIZE * |SlotsOf(c)|
    ensures c[k] == d[k]
  {
    hide SlotsOf, HeaderOf, Directory, ChecksumOk, EntryAt, PackedOffset;
    var slots, j := SlotsOf(c), (k - HEADER_SIZE) / SLOT_SIZE;
    assert PackedSlot(b, c, slots, j) && PackedSlot(c, d, slots, j);
    SameEntry(c, d, j, k);
  }

  lemma RepackedRecordByte(b: Bytes, c: Bytes, d: Bytes, k: nat)
    requires PackedIn(b, c) && PackedIn(c, d) && SlotsOf(b) == SlotsOf(c)
    requires PackedOffset(SlotsOf(c), |SlotsOf(c)|) <= k < PAGE_SIZE
    ensures c[k] == d[k]
  {
    hide SlotsOf, HeaderOf, Directory, ChecksumOk, EntryAt, PackedOffset;
    var slots := SlotsOf(c);
    var j := Covered(slots, |slots|, k);
    assert PackedSlot(b, c, slots, j) && PackedSlot(c, d, slots, j);
    SameSlice(c, d, PackedOffset(slots, j + 1), slots[j].record, k);
  }

  lemma RepackedHeaderByte(b: Bytes, c: Bytes, d: Bytes, k: nat)
    requires PackedIn(b, c) && PackedIn(c, d) && SlotsOf(b) == SlotsOf(c) && k < OFF_CHECKSUM
    ensures c[k] == d[k]
  {
    hide Sane, SlotsOf, HeaderOf, PackedSlot;
    if k < OFF_FREE_END {
      assert c[k] == c[..OFF_FREE_END][k] == d[..OFF_FREE_END][k] == d[k];
    } else {
      SameWord(c, d, OFF_FREE_END);
      SameWord(c, d, OFF_SLOT_COUNT);
    }
  }

  lemma SameSlice(c: Bytes, d: Bytes, o: nat, record: Bytes, k: nat)
    requires |c| == |d| && o + |record| <= |c| && c[o..o + |record|] == record && d[o..o + |record|] == record
    requires o <= k < o + |record|
    ensures c[k] == d[k]
  {
    assert c[k] == c[o..o + |record|][k - o] == d[o..o + |record|][k - o] == d[k];
  }

  /** A second compaction changes no byte. */
  lemma CompactTwice(b: Bytes, c: Bytes, d: Bytes)
    requires PackedIn(b, c) && ChecksumOk(c) && PackedIn(c, d) && ChecksumOk(d)
    ensures d == c
  {
    hide ChecksumOk, Sane, SlotsOf, HeaderOf, PackedSlot;
    forall k | 0 <= k < PAGE_SIZE && !(OFF_CHECKSUM <= k < HEADER_SIZE) ensures c[k] == d[k] {
      RepackedByte(b, c, d, k);
    }
    SameButChecksum(c, d);
  }

  lemma SameButChecksum(c: Bytes, d: Bytes)
    requires |c| == |d| == PAGE_SIZE && ChecksumOk(c) && ChecksumOk(d)
    requires forall k :: 0 <= k < PAGE_SIZE && !(OFF_CHECKSUM <= k < HEADER_SIZE) ==> c[k] == d[k]
    ensures d == c
  {
    hide Checksum;
    assert Cleared(c) == Cleared(d);
    SameWord(c, d, OFF_CHECKSUM);
    SameWord(c, d, OFF_CHECKSUM + 2);
  }
}
