/** The WAL file: records appended at its end and read back from its start. */
module WalFiles {
  import opened Core
  import opened SlottedModel
  import opened PageBytes
  import opened SlottedPages
  import opened WalModel
  import opened WalBytes

  // One record

  method WriteHead(a: array<u8>, record: WalRecord)
    requires Shaped(record.kind) && WAL_HEADER_SIZE <= a.Length
    modifies a
    ensures a[..OFF_WAL_CHECKSUM] == HeadBytes(record.lsn, record.kind)
  {
    var kind := record.kind;
    WriteNames(a, kind);
    ghost var b := a[..];
    WriteIds(a, record.lsn, TxField(kind), PageField(kind));
    ghost var c := a[..];
    Write32(a, OFF_PAYLOAD_LEN, |Payload(kind)|);
    hide U32At, Word32, Word64, Word16;
    Words32Of(a[..], OFF_PAYLOAD_LEN);
    assert a[..OFF_LSN] == b[..OFF_LSN];
    assert a[OFF_LSN..OFF_PAYLOAD_LEN] == c[OFF_LSN..OFF_PAYLOAD_LEN];
    assert a[..OFF_WAL_CHECKSUM] == a[..OFF_LSN] + a[OFF_LSN..OFF_PAYLOAD_LEN] + a[OFF_PAYLOAD_LEN..OFF_WAL_CHECKSUM];
  }

  method WriteNames(a: array<u8>, kind: Kind)
    requires WAL_HEADER_SIZE <= a.Length
    modifies a
    ensures a[..OFF_LSN] == Word32(WAL_MAGIC) + Word16(WAL_VERSION) + Word16(KindCode(kind))
  {
    Write32(a, OFF_MAGIC, WAL_MAGIC);
    Words32Of(a[..], OFF_MAGIC);
    ghost var b := a[..];
    Write16(a, OFF_VERSION, WAL_VERSION);
    WordsOf(a[..], OFF_VERSION);
    ghost var c := a[..];
    Write16(a, OFF_KIND, KindCode(kind));
    WordsOf(a[..], OFF_KIND);
    hide U32At, U16At, Word32, Word16;
    assert a[OFF_MAGIC..OFF_VERSION] == b[OFF_MAGIC..OFF_VERSION];
    assert a[OFF_VERSION..OFF_KIND] == c[OFF_VERSION..OFF_KIND];
    assert a[..OFF_LSN] == a[OFF_MAGIC..OFF_VERSION] + a[OFF_VERSION..OFF_KIND] + a[OFF_KIND..OFF_LSN];
  }

  method WriteIds(a: array<u8>, lsn: Lsn, txId: u64, pageId: u64)
    requires WAL_HEADER_SIZE <= a.Length
    modifies a
    ensures a[OFF_LSN..OFF_PAYLOAD_LEN] == Word64(lsn) + Word64(txId) + Word64(pageId)
    ensures forall k :: 0 <= k < OFF_LSN || OFF_PAYLOAD_LEN <= k < a.Length ==> a[k] == old(a[k])
  {
    Write64(a, OFF_LSN, lsn);
    Words64Of(a[..], OFF_LSN);
    ghost var b := a[..];
    Write64(a, OFF_TX_ID, txId);
    Words64Of(a[..], OFF_TX_ID);
    ghost var c := a[..];
    Write64(a, OFF_RECORD_PAGE, pageId);
    Words64Of(a[..], OFF_RECORD_PAGE);
    hide U64At, Word64;
    assert a[OFF_LSN..OFF_TX_ID] == b[OFF_LSN..OFF_TX_ID];
    assert a[OFF_TX_ID..OFF_RECORD_PAGE] == c[OFF_TX_ID..OFF_RECORD_PAGE];
    assert a[OFF_LSN..OFF_PAYLOAD_LEN] ==
           a[OFF_LSN..OFF_TX_ID] + a[OFF_TX_ID..OFF_RECORD_PAGE] + a[OFF_RECORD_PAGE..OFF_PAYLOAD_LEN];
  }

  /** Sum every byte but the checksum's four. */
  method SumAround(a: array<u8>) returns (checksum: u32)
    requires WAL_HEADER_SIZE <= a.Length
    ensures checksum == WalChecksum(a[..])
  {
    hide ByteSum;
    checksum := 0;
    assert ByteSum([]) == 0 by {
      EmptySum();
    }
    for i := 0 to a.Length
      invariant checksum == SumBelow(a[..], i)
    {
      if OFF_WAL_CHECKSUM <= i < WAL_HEADER_SIZE {
        assert a[..][WAL_HEADER_SIZE..WAL_HEADER_SIZE] == [];
      } else {
        SumBelowStep(a[..], i);
        checksum := (checksum as int + a[i] as int) % 0x1_0000_0000;
      }
    }
    assert a[WAL_HEADER_SIZE..a.Length] == a[WAL_HEADER_SIZE..];
  }

  lemma EmptySum()
    ensures ByteSum([]) == 0
  {
  }

  ghost function SumBelow(b: Bytes, i: nat): u32
    requires i <= |b|
  {
    (ByteSum(b[..if i < OFF_WAL_CHECKSUM then i else OFF_WAL_CHECKSUM])
     + if i < WAL_HEADER_SIZE then 0 else ByteSum(b[WAL_HEADER_SIZE..i])) % 0x1_0000_0000
  }

  lemma SumBelowStep(b: Bytes, i: nat)
    requires i < |b| && !(OFF_WAL_CHECKSUM <= i < WAL_HEADER_SIZE)
    ensures SumBelow(b, i + 1) == (SumBelow(b, i) as int + b[i] as int) % 0x1_0000_0000
  {
    hide ByteSum;
    if i < OFF_WAL_CHECKSUM {
      assert b[..i + 1] == b[..i] + [b[i]];
      ByteSumAppend(b[..i], b[i]);
    } else {
      assert b[WAL_HEADER_SIZE..i + 1] == b[WAL_HEADER_SIZE..i] + [b[i]];
      ByteSumAppend(b[WAL_HEADER_SIZE..i], b[i]);
    }
  }

  /** Encode one record field by field, then its checksum over everything else. */
  method EncodeRecord(record: WalRecord) returns (bytes: Bytes)
    requires Shaped(record.kind)
    ensures bytes == RecordBytes(record)
  {
    hide U32At, Word32, ByteSum, HeadBytes;
    var payload := Payload(record.kind);
    var a := new u8[WAL_HEADER_SIZE + |payload|](_ => 0);
    WriteHead(a, record);
    ghost var head := a[..OFF_WAL_CHECKSUM];
    Write32(a, OFF_WAL_CHECKSUM, 0);
    CopyInto(a, WAL_HEADER_SIZE, payload);
    assert a[..OFF_WAL_CHECKSUM] == head;
    assert a[WAL_HEADER_SIZE..WAL_HEADER_SIZE + |payload|] == a[WAL_HEADER_SIZE..];
    var checksum := SumAround(a);
    Write32(a, OFF_WAL_CHECKSUM, checksum);
    Words32Of(a[..], OFF_WAL_CHECKSUM);
    assert a[..OFF_WAL_CHECKSUM] == head && a[WAL_HEADER_SIZE..] == payload;
    assert a[..] == a[..OFF_WAL_CHECKSUM] + a[OFF_WAL_CHECKSUM..WAL_HEADER_SIZE] + a[WAL_HEADER_SIZE..];
    bytes := a[..];
  }

  // The file

  class WalFile {
    var bytes: Bytes
    var next: Lsn

    /** The kinds appended so far, for a file begun empty. */
    ghost var kinds: seq<Kind>

    /** The file is the stream of what was appended, and the next LSN is its length. */
    ghost predicate Valid()
      reads this
    {
      AllShaped(kinds) && StreamLen(kinds) <= U64_MAX && bytes == StreamFrom(0, kinds) && next == |bytes|
    }

    constructor ()
      ensures Valid() && kinds == []
    {
      bytes, next, kinds := [], 0, [];
    }

    /** Append one record at the end of the file; its LSN is where it starts. */
    method Append(kind: Kind) returns (r: Result<Lsn>)
      requires Valid() && Shaped(kind)
      modifies this
      ensures Valid()
      ensures r == if StreamLen(old(kinds)) + RecordLen(kind) > U64_MAX then Err(User) else Ok(StreamLen(old(kinds)))
      ensures kinds == if r.Ok? then old(kinds) + [kind] else old(kinds)
      ensures r.Err? ==> bytes == old(bytes)
    {
      hide RecordBytes, StreamFrom;
      if next + RecordLen(kind) > U64_MAX {
        return Err(User);
      }
      var lsn := next;
      var encoded := EncodeRecord(WalRecord(lsn, kind));
      StreamAppend(0, kinds, kind);
      bytes := bytes + encoded;
      next := next + RecordLen(kind);
      kinds := kinds + [kind];
      r := Ok(lsn);
    }

    /** Read and validate every record. */
    method ReadAll() returns (r: Result<seq<WalRecord>>)
      requires Valid()
      ensures r == Ok(RecordsFrom(0, kinds))
    {
      r := ReadStream(bytes);
      CutIsDetected(kinds, StreamLen(kinds));
      assert kinds[..|kinds|] == kinds;
      assert bytes[..|bytes|] == bytes;
    }
  }

  lemma {:induction false} StreamAppend(at: nat, kinds: seq<Kind>, kind: Kind)
    requires AllShaped(kinds) && Shaped(kind) && at + StreamLen(kinds) + RecordLen(kind) <= U64_MAX
    ensures AllShaped(kinds + [kind]) && StreamLen(kinds + [kind]) == StreamLen(kinds) + RecordLen(kind)
    ensures StreamFrom(at, kinds + [kind]) == StreamFrom(at, kinds) + RecordBytes(WalRecord(at + StreamLen(kinds), kind))
    decreases |kinds|
  {
    hide RecordBytes, StreamFrom, StreamLen, RecordLen, Shaped;
    var all := kinds + [kind];
    LengthAppend(kinds, kind);
    assert AllShaped(all);
    if kinds == [] {
      LoneRecord(at, kind);
      assert all == [kind];
    } else {
      var len := RecordLen(kinds[0]);
      StreamSplit(at, kinds);
      StreamSplit(at, all);
      assert all[1..] == kinds[1..] + [kind];
      StreamAppend(at + len, kinds[1..], kind);
      var first, last := RecordBytes(WalRecord(at, kinds[0])), RecordBytes(WalRecord(at + StreamLen(kinds), kind));
      var rest := StreamFrom(at + len, kinds[1..]);
      assert first + (rest + last) == first + rest + last;
    }
  }

  lemma {:induction false} LengthAppend(kinds: seq<Kind>, kind: Kind)
    ensures StreamLen(kinds + [kind]) == StreamLen(kinds) + RecordLen(kind)
  {
    if kinds == [] {
      assert [kind][1..] == [];
      assert kinds + [kind] == [kind];
    } else {
      LengthAppend(kinds[1..], kind);
      assert (kinds + [kind])[1..] == kinds[1..] + [kind];
    }
  }

  lemma LoneRecord(at: nat, kind: Kind)
    requires Shaped(kind) && at + RecordLen(kind) <= U64_MAX
    ensures StreamLen([]) == 0 && StreamLen([kind]) == RecordLen(kind)
    ensures StreamFrom(at, [kind]) == StreamFrom(at, []) + RecordBytes(WalRecord(at, kind)) == RecordBytes(WalRecord(at, kind))
  {
    assert [kind][1..] == [];
    assert StreamFrom(at, [kind]) == RecordBytes(WalRecord(at, kind)) + StreamFrom(at + RecordLen(kind), []);
  }

  /** Records read one after another until the end of the file. */
  method ReadStream(bytes: Bytes) returns (r: Result<seq<WalRecord>>)
    ensures r == ReadFrom(0, bytes)
  {
    hide U32At, DecodeRecord;
    var offset, records: seq<WalRecord> := 0, [];
    assert bytes[0..] == bytes;
    PrependNone(ReadFrom(0, bytes));
    while offset < |bytes|
      invariant offset <= |bytes|
      invariant ReadFrom(0, bytes) == Prepend(records, ReadFrom(offset, bytes[offset..]))
    {
      var remaining := |bytes| - offset;
      if remaining < WAL_HEADER_SIZE {
        return Err(Corruption);
      }
      var recordLen := WAL_HEADER_SIZE + U32At(bytes[offset..], OFF_PAYLOAD_LEN);
      if remaining < recordLen {
        return Err(Corruption);
      }
      assert bytes[offset..][..recordLen] == bytes[offset..offset + recordLen];
      assert bytes[offset..][recordLen..] == bytes[offset + recordLen..];
      match DecodeRecord(bytes[offset..offset + recordLen])
      case Err(error) =>
        return Err(error);
      case Ok(record) =>
        if record.lsn != offset {
          return Err(Corruption);
        }
        PrependStep(records, record, ReadFrom(offset + recordLen, bytes[offset + recordLen..]));
        records := records + [record];
        offset := offset + recordLen;
    }
    assert records + [] == records;
    r := Ok(records);
  }

  ghost function Prepend(records: seq<WalRecord>, r: Result<seq<WalRecord>>): Result<seq<WalRecord>> {
    match r
    case Err(error) => Err(error)
    case Ok(rest) => Ok(records + rest)
  }

  lemma PrependNone(r: Result<seq<WalRecord>>)
    ensures Prepend([], r) == r
  {
    assert r.Ok? ==> [] + r.value == r.value;
  }

  lemma PrependStep(records: seq<WalRecord>, record: WalRecord, r: Result<seq<WalRecord>>)
    ensures Prepend(records + [record], r) ==
      match r
      case Err(error) => Err(error)
      case Ok(rest) => Ok(records + ([record] + rest))
  {
    if r.Ok? {
      assert records + ([record] + r.value) == records + [record] + r.value;
    }
  }
}
