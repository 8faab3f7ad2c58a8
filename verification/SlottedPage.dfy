/** A 4096-byte page changed in place. */
module SlottedPages {
  import opened Core
  import opened SlottedModel
  import opened PageBytes

  // Writing into a buffer

  method Write16(a: array<u8>, o: nat, x: u16)
    requires o + 2 <= a.Length
    modifies a
    ensures U16At(a[..], o) == x
    ensures forall k :: 0 <= k < a.Length && k != o && k != o + 1 ==> a[k] == old(a[k])
  {
    a[o] := x % 0x100;
    a[o + 1] := x / 0x100;
  }

  method Write32(a: array<u8>, o: nat, x: u32)
    requires o + 4 <= a.Length
    modifies a
    ensures U32At(a[..], o) == x
    ensures forall k :: 0 <= k < a.Length && !(o <= k < o + 4) ==> a[k] == old(a[k])
  {
    Write16(a, o, x % 0x1_0000);
    Write16(a, o + 2, x / 0x1_0000);
  }

  method Write64(a: array<u8>, o: nat, x: u64)
    requires o + 8 <= a.Length
    modifies a
    ensures U64At(a[..], o) == x
    ensures forall k :: 0 <= k < a.Length && !(o <= k < o + 8) ==> a[k] == old(a[k])
  {
    Write32(a, o, x % 0x1_0000_0000);
    Write32(a, o + 4, x / 0x1_0000_0000);
  }

  method CopyInto(a: array<u8>, o: nat, data: Bytes)
    requires o + |data| <= a.Length
    modifies a
    ensures a[o..o + |data|] == data
    ensures forall k :: 0 <= k < a.Length && !(o <= k < o + |data|) ==> a[k] == old(a[k])
  {
    for i := 0 to |data|
      invariant forall j :: 0 <= j < i ==> a[o + j] == data[j]
      invariant forall k :: 0 <= k < a.Length && !(o <= k < o + i) ==> a[k] == old(a[k])
    {
      a[o + i] := data[i];
    }
  }

  method FillZero(a: array<u8>, lo: nat, hi: nat)
    requires lo <= hi <= a.Length
    modifies a
    ensures forall k :: lo <= k < hi ==> a[k] == 0
    ensures forall k :: 0 <= k < a.Length && !(lo <= k < hi) ==> a[k] == old(a[k])
  {
    for i := lo to hi
      invariant forall k :: lo <= k < i ==> a[k] == 0
      invariant forall k :: 0 <= k < a.Length && !(lo <= k < i) ==> a[k] == old(a[k])
    {
      a[i] := 0;
    }
  }

  method SumBytes(a: array<u8>) returns (sum: u32)
    ensures sum == Checksum(a[..])
  {
    sum := 0;
    for i := 0 to a.Length
      invariant sum == Checksum(a[..i])
    {
      assert a[..i + 1] == a[..i] + [a[i]];
      ByteSumAppend(a[..i], a[i]);
      sum := (sum as int + a[i] as int) % 0x1_0000_0000;
    }
    assert a[..a.Length] == a[..];
  }

  method WriteEntry(a: array<u8>, i: nat, e: SlotEntry)
    requires HEADER_SIZE + SLOT_SIZE * (i + 1) <= a.Length
    modifies a
    ensures EntryAt(a[..], i) == e
    ensures forall k :: 0 <= k < a.Length && !(HEADER_SIZE + SLOT_SIZE * i <= k < HEADER_SIZE + SLOT_SIZE * (i + 1)) ==>
      a[k] == old(a[k])
  {
    var o := HEADER_SIZE + SLOT_SIZE * i;
    Write16(a, o, e.offset);
    Write16(a, o + 2, e.len);
    Write16(a, o + 4, e.flags);
  }

  /** The fields a page keeps for life. */
  method WriteIdentity(a: array<u8>, pageId: PageId, pageType: PageType)
    requires a.Length == PAGE_SIZE
    modifies a
    ensures U32At(a[..], OFF_MAGIC) == PAGE_MAGIC && U16At(a[..], OFF_VERSION) == PAGE_VERSION
    ensures U16At(a[..], OFF_PAGE_TYPE) == TypeCode(pageType)
    ensures U64At(a[..], OFF_PAGE_ID) == pageId && U64At(a[..], OFF_PAGE_LSN) == 0
    ensures forall k :: OFF_FREE_START <= k < PAGE_SIZE ==> a[k] == old(a[k])
  {
    Write32(a, OFF_MAGIC, PAGE_MAGIC);
    Write16(a, OFF_VERSION, PAGE_VERSION);
    Write16(a, OFF_PAGE_TYPE, TypeCode(pageType));
    Write64(a, OFF_PAGE_ID, pageId);
    Write64(a, OFF_PAGE_LSN, 0);
  }

  method WriteFormat(a: array<u8>, pageId: PageId, pageType: PageType)
    requires a.Length == PAGE_SIZE
    modifies a
    ensures HeaderOf(a[..]).Ok?
    ensures var h := HeaderOf(a[..]).value;
      h == PageHeader(pageId, 0, pageType, HEADER_SIZE, PAGE_SIZE, 0, h.checksum)
  {
    hide HeaderOf, U32At, U64At;
    WriteIdentity(a, pageId, pageType);
    ghost var b := a[..];
    Write16(a, OFF_FREE_START, HEADER_SIZE);
    Write16(a, OFF_FREE_END, PAGE_SIZE);
    Write16(a, OFF_SLOT_COUNT, 0);
    SameIdentityBytes(b, a[..]);
    FreshHeader(a[..], pageId, pageType);
  }

  lemma SameIdentityBytes(b: Bytes, c: Bytes)
    requires |b| == |c| == PAGE_SIZE && forall k :: 0 <= k < OFF_FREE_START ==> c[k] == b[k]
    ensures U32At(c, OFF_MAGIC) == U32At(b, OFF_MAGIC) && U16At(c, OFF_VERSION) == U16At(b, OFF_VERSION)
    ensures U16At(c, OFF_PAGE_TYPE) == U16At(b, OFF_PAGE_TYPE) && U64At(c, OFF_PAGE_ID) == U64At(b, OFF_PAGE_ID)
    ensures U64At(c, OFF_PAGE_LSN) == U64At(b, OFF_PAGE_LSN)
  {
  }

  lemma FreshHeader(b: Bytes, pageId: PageId, pageType: PageType)
    requires |b| == PAGE_SIZE
    requires U32At(b, OFF_MAGIC) == PAGE_MAGIC && U16At(b, OFF_VERSION) == PAGE_VERSION
    requires U16At(b, OFF_PAGE_TYPE) == TypeCode(pageType) && U64At(b, OFF_PAGE_ID) == pageId && U64At(b, OFF_PAGE_LSN) == 0
    requires U16At(b, OFF_FREE_START) == HEADER_SIZE && U16At(b, OFF_FREE_END) == PAGE_SIZE && U16At(b, OFF_SLOT_COUNT) == 0
    ensures HeaderOf(b) == Ok(PageHeader(pageId, 0, pageType, HEADER_SIZE, PAGE_SIZE, 0, U32At(b, OFF_CHECKSUM)))
  {
    hide U16At, U32At, U64At;
  }

  /** All of the header but its checksum lies before the checksum field. */
  lemma SameHead(b: Bytes, c: Bytes)
    requires |b| == |c| == PAGE_SIZE && forall k :: 0 <= k < OFF_CHECKSUM ==> c[k] == b[k]
    requires HeaderOf(b).Ok?
    ensures HeaderOf(c).Ok? && HeaderOf(c).value == HeaderOf(b).value.(checksum := HeaderOf(c).value.checksum)
  {
  }

  lemma SameBounds(b: Bytes, c: Bytes)
    requires |b| == |c| == PAGE_SIZE && forall k :: OFF_FREE_START <= k < OFF_CHECKSUM ==> c[k] == b[k]
    ensures U16At(c, OFF_FREE_START) == U16At(b, OFF_FREE_START) && U16At(c, OFF_FREE_END) == U16At(b, OFF_FREE_END)
    ensures U16At(c, OFF_SLOT_COUNT) == U16At(b, OFF_SLOT_COUNT)
  {
  }

  /** The same bytes read as the same entry. */
  lemma EntrySame(b: Bytes, c: Bytes, j: nat)
    requires |b| == |c| == PAGE_SIZE && HEADER_SIZE + SLOT_SIZE * (j + 1) <= PAGE_SIZE
    requires forall k :: HEADER_SIZE + SLOT_SIZE * j <= k < HEADER_SIZE + SLOT_SIZE * (j + 1) ==> c[k] == b[k]
    ensures EntryAt(c, j) == EntryAt(b, j)
  {
  }

  class SlottedPage {
    const bytes: array<u8>

    /** Every page these methods make or change. */
    ghost predicate Valid()
      reads this, bytes
    {
      bytes.Length == PAGE_SIZE && Sane(bytes[..])
    }

    ghost function Rows(): (rows: Slotted)
      requires Valid()
      reads this, bytes
      ensures rows.Sound()
    {
      SaneValidates(bytes[..]);
      RowsIn(bytes[..])
    }

    ghost function Head(): PageHeader
      requires Valid()
      reads this, bytes
    {
      HeaderOf(bytes[..]).value
    }

    /** The header fields no operation changes. */
    twostate predicate SameIdentity()
      requires old(Valid()) && Valid()
      reads this, bytes
    {
      && Head().pageId == old(Head().pageId) && Head().pageLsn == old(Head().pageLsn)
      && Head().pageType == old(Head().pageType)
    }

    constructor (pageId: PageId, pageType: PageType)
      ensures Valid() && fresh(bytes) && Rows() == EMPTY
      ensures Head().pageId == pageId && Head().pageType == pageType && Head().pageLsn == 0
    {
      bytes := new u8[PAGE_SIZE](_ => 0);
      new;
      hide HeaderOf, ChecksumOk;
      WriteFormat(bytes, pageId, pageType);
      ghost var b := bytes[..];
      RefreshChecksum();
      SameHead(b, bytes[..]);
      assert SlotsOf(bytes[..]) == [];
    }

    constructor Raw(contents: Bytes)
      requires |contents| == PAGE_SIZE
      ensures fresh(bytes) && bytes.Length == PAGE_SIZE && bytes[..] == contents
    {
      bytes := new u8[PAGE_SIZE](i requires 0 <= i < PAGE_SIZE => contents[i]);
    }

    method RefreshChecksum()
      requires bytes.Length == PAGE_SIZE
      modifies bytes
      ensures ChecksumOk(bytes[..])
      ensures forall k :: 0 <= k < PAGE_SIZE && !(OFF_CHECKSUM <= k < HEADER_SIZE) ==> bytes[k] == old(bytes[k])
    {
      Write32(bytes, OFF_CHECKSUM, 0);
      ghost var cleared := bytes[..];
      assert Cleared(cleared) == cleared;
      var value := SumBytes(bytes);
      Write32(bytes, OFF_CHECKSUM, value);
      assert Cleared(bytes[..]) == cleared;
    }

    method Header() returns (r: Result<PageHeader>)
      requires bytes.Length == PAGE_SIZE
      ensures r == HeaderOf(bytes[..])
    {
      r := HeaderOf(bytes[..]);
    }

    /** Header, checksum and every slot. */
    method Validate() returns (r: Result<()>)
      requires bytes.Length == PAGE_SIZE
      ensures r == if Validates(bytes[..]) then Ok(()) else Err(Corruption)
    {
      hide HeaderOf, EntryAt, Checksum, EntryOk;
      var header := Header();
      match header
      case Err(error) =>
        r := Err(Corruption);
      case Ok(h) =>
        var expected := U32At(bytes[..], OFF_CHECKSUM);
        var copy := new u8[PAGE_SIZE](i requires 0 <= i < PAGE_SIZE reads bytes => bytes[i]);
        Write32(copy, OFF_CHECKSUM, 0);
        assert copy[..] == Cleared(bytes[..]);
        var actual := SumBytes(copy);
        if actual != expected {
          return Err(Corruption);
        }
        for i := 0 to h.slotCount
          invariant forall j :: 0 <= j < i ==> EntryOk(EntryAt(bytes[..], j), h.freeEnd)
        {
          if !EntryOk(EntryAt(bytes[..], i), h.freeEnd) {
            return Err(Corruption);
          }
        }
        r := Ok(());
    }

    /** Parse a page copied from storage. */
    static method FromBytes(contents: Bytes) returns (r: Result<SlottedPage>)
      requires |contents| == PAGE_SIZE
      ensures r.Ok? <==> Validates(contents)
      ensures r.Err? ==> r.error == Corruption
      ensures r.Ok? ==> fresh(r.value) && fresh(r.value.bytes) && r.value.bytes.Length == PAGE_SIZE && r.value.bytes[..] == contents
      ensures r.Ok? && Sane(contents) ==> r.value.Valid()
    {
      hide Validates, Sane;
      var page := new SlottedPage.Raw(contents);
      var valid := page.Validate();
      match valid
      case Err(error) => r := Err(error);
      case Ok(_) => r := Ok(page);
    }

    method FindDeadSlot(slotCount: u16) returns (i: nat)
      requires Valid() && slotCount == Head().slotCount
      ensures i == FirstDead(Rows().slots)
    {
      hide HeaderOf, EntryAt, Checksum, LiveBytes, Apart;
      i := 0;
      while i < slotCount
        invariant i <= slotCount
        invariant forall j :: 0 <= j < i ==> EntryAt(bytes[..], j).flags == SLOT_LIVE
      {
        if EntryAt(bytes[..], i).flags == SLOT_DEAD {
          break;
        }
        i := i + 1;
      }
      FirstDeadAt(Rows().slots, i);
    }

    /** Store a record in the lowest dead slot, or a fresh one. It fails, changing nothing, exactly when it has no room. */
    method InsertRecord(record: Bytes) returns (r: Result<SlotId>)
      requires Valid()
      modifies bytes
      ensures Valid() && SameIdentity()
      ensures r.Ok? <==>
        |record| + (if Dead in old(Rows()).slots then 0 else SLOT_SIZE) <= old(Head()).freeEnd - old(Head()).freeStart
      ensures r.Err? ==> r.error == User && bytes[..] == old(bytes[..])
      ensures r.Ok? ==> PutIn(old(Rows()).slots, Rows().slots, record, r.value)
      ensures if HasRoom(old(Rows()), record)
              then r == Ok(FirstDead(old(Rows()).slots)) && Rows() == Inserted(old(Rows()), record)
              else r == Err(User) && bytes[..] == old(bytes[..])
    {
      hide HeaderOf, Sane, HasRoom, Inserted, FirstDead, PutIn;
      RowsBounds(bytes[..]);
      RoomMeans(Rows(), record);
      r := Insert(record);
    }

    method Insert(record: Bytes) returns (r: Result<SlotId>)
      requires Valid()
      modifies bytes
      ensures Valid() && SameIdentity()
      ensures if HasRoom(old(Rows()), record)
              then r == Ok(FirstDead(old(Rows()).slots)) && Rows() == Inserted(old(Rows()), record)
              else r == Err(User) && bytes[..] == old(bytes[..])
    {
      hide Checksum, LiveBytes, Directory, FirstDead, StoredIn, EntryAt;
      if |record| > U16_MAX {
        return Err(User);
      }
      ghost var before := bytes[..];
      var parsed := Header();
      match parsed
      case Err(error) =>
        r := Err(error);
      case Ok(header) =>
        var slot := FindDeadSlot(header.slotCount);
        var needed := |record| + if slot < header.slotCount then 0 else SLOT_SIZE;
        if needed > header.freeEnd - header.freeStart {
          return Err(User);
        }
        Store(record, slot, header);
        StoredHeader(before, bytes[..], record, slot);
        StoredIsInserted(before, bytes[..], record, slot);
        r := Ok(slot);
    }

    method GrowDirectory(slotCount: u16)
      requires bytes.Length == PAGE_SIZE && HEADER_SIZE + SLOT_SIZE * slotCount <= PAGE_SIZE
      modifies bytes
      ensures U16At(bytes[..], OFF_SLOT_COUNT) == slotCount
      ensures U16At(bytes[..], OFF_FREE_START) == HEADER_SIZE + SLOT_SIZE * slotCount
      ensures U16At(bytes[..], OFF_FREE_END) == old(U16At(bytes[..], OFF_FREE_END))
      ensures forall k :: 0 <= k < OFF_FREE_START || OFF_CHECKSUM <= k < PAGE_SIZE ==> bytes[k] == old(bytes[k])
    {
      Write16(bytes, OFF_SLOT_COUNT, slotCount);
      Write16(bytes, OFF_FREE_START, HEADER_SIZE + SLOT_SIZE * slotCount);
    }

    /** The last two writes of an operation: a directory entry and the checksum. */
    method SealEntry(slot: nat, e: SlotEntry)
      requires bytes.Length == PAGE_SIZE && HEADER_SIZE + SLOT_SIZE * (slot + 1) <= PAGE_SIZE
      modifies bytes
      ensures EntryAt(bytes[..], slot) == e && ChecksumOk(bytes[..])
      ensures forall k :: 0 <= k < PAGE_SIZE && !InEntry(slot, k) && !(OFF_CHECKSUM <= k < HEADER_SIZE) ==>
        bytes[k] == old(bytes[k])
    {
      hide ChecksumOk;
      WriteEntry(bytes, slot, e);
      ghost var b := bytes[..];
      RefreshChecksum();
      EntrySame(b, bytes[..], slot);
    }

    method Store(record: Bytes, slot: nat, header: PageHeader)
      requires Valid() && header == Head() && slot <= header.slotCount
      requires header.freeStart + |record| + (if slot == header.slotCount then SLOT_SIZE else 0) <= header.freeEnd
      modifies bytes
      ensures StoredIn(old(bytes[..]), bytes[..], record, slot) && ChecksumOk(bytes[..])
    {
      hide HeaderOf, ChecksumOk, Directory, EntryAt, LiveBytes, StoredIn;
      ghost var b := bytes[..];
      var newOffset := header.freeEnd - |record|;
      HeaderFields(b);
      CopyInto(bytes, newOffset, record);
      Write16(bytes, OFF_FREE_END, newOffset);
      if slot == header.slotCount {
        GrowDirectory(slot + 1);
      }
      ghost var c := bytes[..];
      assert U16At(c, OFF_SLOT_COUNT) == if slot == header.slotCount then slot + 1 else header.slotCount;
      assert U16At(c, OFF_FREE_START) == HEADER_SIZE + SLOT_SIZE * U16At(c, OFF_SLOT_COUNT);
      assert c[newOffset..header.freeEnd] == record;
      SealEntry(slot, SlotEntry(newOffset, |record|, SLOT_LIVE));
      assert bytes[newOffset..header.freeEnd] == c[newOffset..header.freeEnd];
      SameBounds(c, bytes[..]);
      StoredByWrites(b, bytes[..], record, slot, header);
    }

    /** The record in a slot, if it is live. */
    method ReadRecord(slot: SlotId) returns (r: Result<Option<Bytes>>)
      requires bytes.Length == PAGE_SIZE && Validates(bytes[..])
      ensures if slot >= HeaderOf(bytes[..]).value.slotCount then r == Err(User)
              else
                var e := EntryAt(bytes[..], slot);
                if e.flags == SLOT_LIVE then e.offset + e.len <= PAGE_SIZE && r == Ok(Some(bytes[e.offset..e.offset + e.len]))
                else r == Ok(None)
      ensures Valid() ==> r == if slot >= |Rows().slots| then Err(User) else Ok(Rows().Record(slot))
    {
      hide HeaderOf, EntryAt, Checksum, LiveBytes, Apart;
      var parsed := Header();
      match parsed
      case Err(error) =>
        r := Err(error);
      case Ok(header) =>
        if slot >= header.slotCount {
          return Err(User);
        }
        var e := EntryAt(bytes[..], slot);
        assert EntryOk(EntryAt(bytes[..], slot), header.freeEnd);
        if e.flags != SLOT_LIVE {
          return Ok(None);
        }
        if e.offset + e.len > PAGE_SIZE {
          return Err(Corruption);
        }
        r := Ok(Some(bytes[e.offset..e.offset + e.len]));
    }

    /** Mark a slot dead; false when it was not live. */
    method DeleteRecord(slot: SlotId) returns (r: Result<bool>)
      requires Valid()
      modifies bytes
      ensures Valid() && SameIdentity()
      ensures if slot >= |old(Rows()).slots| then r == Err(User) && bytes[..] == old(bytes[..])
              else
                && r == Ok(old(Rows()).slots[slot].Live?)
                && Rows().slots == old(Rows()).slots[slot := Dead]
                && Rows() == if old(Rows()).slots[slot].Live? then Deleted(old(Rows()), slot) else old(Rows())
    {
      hide Checksum, LiveBytes, Apart;
      ghost var b := bytes[..];
      var parsed := Header();
      match parsed
      case Err(error) =>
        r := Err(error);
      case Ok(header) =>
        if slot >= header.slotCount {
          return Err(User);
        }
        var e := EntryAt(bytes[..], slot);
        DeadEntry(b, slot);
        if e.flags != SLOT_LIVE {
          return Ok(false);
        }
        Kill(slot, e, header);
        KilledHeader(b, bytes[..], slot);
        KilledIsDeleted(b, bytes[..], slot);
        r := Ok(true);
    }

    method Kill(slot: nat, e: SlotEntry, ghost header: PageHeader)
      requires Valid() && header == Head() && slot < header.slotCount && e == EntryAt(bytes[..], slot)
      modifies bytes
      ensures KilledIn(old(bytes[..]), bytes[..], slot) && ChecksumOk(bytes[..])
    {
      hide HeaderOf, Checksum, LiveBytes, Directory;
      ghost var b := bytes[..];
      SealEntry(slot, e.(flags := SLOT_DEAD));
      forall j | 0 <= j < header.slotCount && j != slot ensures EntryAt(bytes[..], j) == EntryAt(b, j) {
        EntrySame(b, bytes[..], j);
      }
      assert bytes[header.freeEnd..] == b[header.freeEnd..];
      assert bytes[..OFF_CHECKSUM] == b[..OFF_CHECKSUM];
    }

    /** Repack the live records against the end of the page, first slot last. */
    method Compact() returns (r: Result<()>)
      requires Valid()
      modifies bytes
      ensures Valid() && SameIdentity() && r == Ok(())
      ensures Rows().slots == old(Rows()).slots
      ensures Rows() == Compacted(old(Rows()))
      ensures PackedIn(old(bytes[..]), bytes[..])
    {
      hide HeaderOf, EntryAt, ChecksumOk, Directory, SlotsOf, PackedSlot;
      ghost var b := bytes[..];
      var parsed := Header();
      match parsed
      case Err(error) =>
        r := Err(error);
      case Ok(header) =>
        var saved := SaveLive(header.slotCount);
        var freeStart := HEADER_SIZE + SLOT_SIZE * header.slotCount;
        FillZero(bytes, freeStart, PAGE_SIZE);
        var freeEnd := Repack(saved, b);
        ghost var c := bytes[..];
        Write16(bytes, OFF_FREE_END, freeEnd);
        ghost var d := bytes[..];
        RefreshChecksum();
        SameBounds(d, bytes[..]);
        Packed(b, c, saved, bytes[..]);
        PackedHeader(b, bytes[..]);
        PackedIsCompacted(b, bytes[..]);
        r := Ok(());
    }

    /** The live records, slot by slot. */
    method SaveLive(slotCount: u16) returns (saved: seq<Slot>)
      requires Valid() && slotCount == Head().slotCount
      ensures saved == Rows().slots
    {
      hide HeaderOf, EntryAt, ChecksumOk, LiveBytes, Apart;
      saved := [];
      for i := 0 to slotCount
        invariant |saved| == i && forall j :: 0 <= j < i ==> saved[j] == SlotsOf(bytes[..])[j]
      {
        var e := EntryAt(bytes[..], i);
        assert EntryOk(EntryAt(bytes[..], i), Head().freeEnd);
        if e.flags == SLOT_LIVE {
          saved := saved + [Live(bytes[e.offset..e.offset + e.len])];
        } else {
          saved := saved + [Dead];
        }
      }
    }

    /** Write the saved records back from the end down. `b` is the page before its record area was cleared. */
    method Repack(saved: seq<Slot>, ghost b: Bytes) returns (freeEnd: nat)
      requires bytes.Length == PAGE_SIZE && Sane(b) && saved == SlotsOf(b)
      requires forall k :: 0 <= k < HEADER_SIZE + SLOT_SIZE * |saved| ==> bytes[k] == b[k]
      requires forall k :: HEADER_SIZE + SLOT_SIZE * |saved| <= k < PAGE_SIZE ==> bytes[k] == 0
      modifies bytes
      ensures freeEnd == PackedOffset(saved, |saved|)
      ensures Repacked(b, bytes[..], saved, |saved|)
    {
      hide HeaderOf, EntryAt, ChecksumOk, Directory, SlotsOf, Repacked;
      freeEnd := PAGE_SIZE;
      NothingRepacked(b, bytes[..], saved);
      for i := 0 to |saved|
        invariant freeEnd == PackedOffset(saved, i)
        invariant Repacked(b, bytes[..], saved, i)
      {
        PackedStep(saved, i);
        PackedRoom(b, saved, i);
        match saved[i] {
          case Dead =>
            DeadRepacked(b, bytes[..], saved, i);
          case Live(data) =>
            ghost var c := bytes[..];
            freeEnd := freeEnd - |data|;
            CopyInto(bytes, freeEnd, data);
            ghost var d := bytes[..];
            WriteEntry(bytes, i, SlotEntry(freeEnd, |data|, SLOT_LIVE));
            assert bytes[freeEnd..freeEnd + |data|] == d[freeEnd..freeEnd + |data|];
            LiveRepacked(b, c, bytes[..], saved, i);
        }
      }
    }

    method FreeSpace() returns (r: Result<nat>)
      requires Valid()
      ensures r == Ok(Rows().FreeSpace())
    {
      var header := Header();
      match header
      case Err(error) => r := Err(error);
      case Ok(h) => r := Ok(h.freeEnd - h.freeStart);
    }
  }

  /** Byte `k` is part of slot `i`'s directory entry. */
  predicate InEntry(i: nat, k: nat) {
    HEADER_SIZE + SLOT_SIZE * i <= k < HEADER_SIZE + SLOT_SIZE * (i + 1)
  }

  /** What the writes of an insert come to. */
  lemma StoredByWrites(b: Bytes, c: Bytes, record: Bytes, slot: nat, h: PageHeader)
    requires |b| == |c| == PAGE_SIZE && HeaderOf(b) == Ok(h) && slot <= h.slotCount
    requires var n := if slot == h.slotCount then slot + 1 else h.slotCount;
      && HEADER_SIZE + SLOT_SIZE * n + |record| <= h.freeEnd
      && U16At(c, OFF_FREE_START) == HEADER_SIZE + SLOT_SIZE * n && U16At(c, OFF_SLOT_COUNT) == n
    requires U16At(c, OFF_FREE_END) == h.freeEnd - |record|
    requires EntryAt(c, slot) == SlotEntry(h.freeEnd - |record|, |record|, SLOT_LIVE)
    requires c[h.freeEnd - |record|..h.freeEnd] == record
    requires forall k :: 0 <= k < OFF_FREE_START || h.freeEnd <= k < PAGE_SIZE ==> c[k] == b[k]
    requires forall k ::
      HEADER_SIZE <= k < HEADER_SIZE + SLOT_SIZE * h.slotCount && !InEntry(slot, k) ==> c[k] == b[k]
    ensures StoredIn(b, c, record, slot)
  {
    hide HeaderOf, U16At;
    forall j | 0 <= j < h.slotCount && j != slot ensures EntryAt(c, j) == EntryAt(b, j) {
      EntrySame(b, c, j);
    }
    assert c[h.freeEnd..] == b[h.freeEnd..];
    assert c[..OFF_FREE_START] == b[..OFF_FREE_START];
  }

  lemma RowsBounds(b: Bytes)
    requires Sane(b)
    ensures var h, rows := HeaderOf(b).value, RowsIn(b);
      rows.freeEnd == h.freeEnd && h.freeStart == HEADER_SIZE + SLOT_SIZE * |rows.slots| && rows.Sound()
  {
  }

  lemma HeaderFields(b: Bytes)
    requires |b| == PAGE_SIZE && HeaderOf(b).Ok?
    ensures var h := HeaderOf(b).value;
      && U16At(b, OFF_SLOT_COUNT) == h.slotCount && U16At(b, OFF_FREE_START) == h.freeStart && U16At(b, OFF_FREE_END) == h.freeEnd
  {
  }

  lemma {:induction false} FirstDeadAt(slots: seq<Slot>, i: nat)
    requires i <= |slots| && (forall j :: 0 <= j < i ==> slots[j].Live?) && (i < |slots| ==> slots[i].Dead?)
    ensures FirstDead(slots) == i
  {
    if i > 0 {
      FirstDeadAt(slots[1..], i - 1);
    }
  }

  // Compaction, slot by slot

  /** The first `n` slots are repacked, the rest of the directory is as in `b`, and nothing else is in the record area. */
  ghost predicate Repacked(b: Bytes, c: Bytes, slots: seq<Slot>, n: nat) {
    && |b| == |c| == PAGE_SIZE && n <= |slots| && HEADER_SIZE + SLOT_SIZE * |slots| <= PackedOffset(slots, n)
    && (forall k :: 0 <= k < HEADER_SIZE ==> c[k] == b[k])
    && (forall j :: 0 <= j < n ==> PackedSlot(b, c, slots, j))
    && (forall j :: n <= j < |slots| ==> EntryAt(c, j) == EntryAt(b, j))
    && (forall k :: HEADER_SIZE + SLOT_SIZE * |slots| <= k < PackedOffset(slots, n) ==> c[k] == 0)
  }

  /** The record area always has room for what is still to come. */
  lemma PackedRoom(b: Bytes, slots: seq<Slot>, n: nat)
    requires Sane(b) && slots == SlotsOf(b) && n < |slots|
    ensures HEADER_SIZE + SLOT_SIZE * |slots| <= PackedOffset(slots, n + 1) <= PackedOffset(slots, n) <= PAGE_SIZE
    ensures slots[n].Live? ==> |slots[n].record| <= U16_MAX
  {
    hide EntryAt, ChecksumOk;
    PackedMonotone(slots, n + 1, |slots|);
    PackedMonotone(slots, 0, n);
    PackedStep(slots, n);
    assert slots[..|slots|] == slots && slots[..0] == [];
  }

  lemma NothingRepacked(b: Bytes, c: Bytes, slots: seq<Slot>)
    requires Sane(b) && |c| == PAGE_SIZE && slots == SlotsOf(b)
    requires forall k :: 0 <= k < HEADER_SIZE + SLOT_SIZE * |slots| ==> c[k] == b[k]
    requires forall k :: HEADER_SIZE + SLOT_SIZE * |slots| <= k < PAGE_SIZE ==> c[k] == 0
    ensures Repacked(b, c, slots, 0) && PackedOffset(slots, 0) == PAGE_SIZE
  {
    hide HeaderOf, Directory, ChecksumOk, SlotsOf, EntryAt;
    assert slots[..0] == [];
    forall j | 0 <= j < |slots| ensures EntryAt(c, j) == EntryAt(b, j) {
      EntrySame(b, c, j);
    }
  }

  lemma DeadRepacked(b: Bytes, c: Bytes, slots: seq<Slot>, n: nat)
    requires Repacked(b, c, slots, n) && n < |slots| && slots[n].Dead?
    ensures Repacked(b, c, slots, n + 1)
  {
    hide EntryAt;
    PackedStep(slots, n);
  }

  lemma LiveRepacked(b: Bytes, c: Bytes, d: Bytes, slots: seq<Slot>, n: nat)
    requires Repacked(b, c, slots, n) && |d| == PAGE_SIZE && n < |slots| && slots[n].Live?
    requires HEADER_SIZE + SLOT_SIZE * |slots| <= PackedOffset(slots, n + 1) && |slots[n].record| <= U16_MAX
    requires var o := PackedOffset(slots, n) - |slots[n].record|;
      && o == PackedOffset(slots, n + 1) && o + |slots[n].record| <= PAGE_SIZE
      && EntryAt(d, n) == SlotEntry(o, |slots[n].record|, SLOT_LIVE)
      && d[o..o + |slots[n].record|] == slots[n].record
      && forall k :: 0 <= k < PAGE_SIZE && !InEntry(n, k) && !(o <= k < o + |slots[n].record|) ==> d[k] == c[k]
    ensures Repacked(b, d, slots, n + 1)
  {
    hide EntryAt, PackedOffset;
    forall j | 0 <= j < |slots| && j != n ensures EntryAt(d, j) == EntryAt(c, j) {
      EntrySame(c, d, j);
    }
    forall j | 0 <= j < n ensures PackedSlot(b, d, slots, j) {
      assert PackedSlot(b, c, slots, j);
      if slots[j].Live? {
        var o, len := PackedOffset(slots, j + 1), |slots[j].record|;
        PackedMonotone(slots, j + 1, n);
        assert d[o..o + len] == c[o..o + len];
      }
    }
  }

  /** With the bounds and the checksum written, the repacked page is the compacted one. */
  lemma Packed(b: Bytes, c: Bytes, slots: seq<Slot>, d: Bytes)
    requires Sane(b) && slots == SlotsOf(b) && |d| == PAGE_SIZE && Repacked(b, c, slots, |slots|)
    requires forall k :: 0 <= k < PAGE_SIZE && !(OFF_FREE_END <= k < OFF_SLOT_COUNT) && !(OFF_CHECKSUM <= k < HEADER_SIZE) ==>
      d[k] == c[k]
    requires U16At(d, OFF_FREE_END) == PackedOffset(slots, |slots|)
    ensures PackedIn(b, d)
  {
    HeaderFields(b);
    SameCount(b, d);
    hide HeaderOf, Directory, ChecksumOk, SlotsOf, EntryAt, PackedOffset, U16At;
    assert d[..OFF_FREE_END] == b[..OFF_FREE_END];
    forall j | 0 <= j < |slots| ensures PackedSlot(b, d, slots, j) {
      assert PackedSlot(b, c, slots, j);
      PackedMonotone(slots, j + 1, |slots|);
      PackedSlotSame(b, c, d, slots, j);
    }
  }

  lemma SameCount(b: Bytes, d: Bytes)
    requires |b| == |d| == PAGE_SIZE && forall k :: OFF_SLOT_COUNT <= k < OFF_CHECKSUM ==> d[k] == b[k]
    ensures U16At(d, OFF_SLOT_COUNT) == U16At(b, OFF_SLOT_COUNT)
  {
  }

  lemma PackedSlotSame(b: Bytes, c: Bytes, d: Bytes, slots: seq<Slot>, j: nat)
    requires |b| == |c| == |d| == PAGE_SIZE && j < |slots| && HEADER_SIZE + SLOT_SIZE * |slots| <= PAGE_SIZE
    requires PackedSlot(b, c, slots, j) && forall k :: HEADER_SIZE <= k < PAGE_SIZE ==> d[k] == c[k]
    requires slots[j].Live? ==> HEADER_SIZE <= PackedOffset(slots, j + 1)
    ensures PackedSlot(b, d, slots, j)
  {
    EntrySame(c, d, j);
    hide EntryAt;
    if slots[j].Live? {
      var o, len := PackedOffset(slots, j + 1), |slots[j].record|;
      assert d[o..o + len] == c[o..o + len];
    }
  }
}
