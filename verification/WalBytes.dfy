/** WAL records as bytes: one record, the whole stream, and a stream cut short or corrupted. */
module WalBytes {
  import opened Core
  import opened SlottedModel
  import opened PageBytes
  import opened WalModel

  const WAL_MAGIC: u32 := 0x5244_4257 // "RDBW"
  const WAL_VERSION: u16 := 1
  const WAL_HEADER_SIZE: nat := 40

  const OFF_KIND: nat := 6
  const OFF_LSN: nat := 8
  const OFF_TX_ID: nat := 16
  const OFF_RECORD_PAGE: nat := 24
  const OFF_PAYLOAD_LEN: nat := 32
  const OFF_WAL_CHECKSUM: nat := 36

  const ABSENT_ID: u64 := U64_MAX

  type Kind = RecordKind<Bytes>

  datatype WalRecord = WalRecord(lsn: Lsn, kind: Kind)

  /** A page image is one page long. */
  predicate Shaped(kind: Kind) {
    kind.PageImage? ==> |kind.image| == PAGE_SIZE
  }

  function KindCode(kind: Kind): u16 {
    match kind
    case BeginTx(_) => 1
    case PageImage(_, _, _) => 2
    case CommitTx(_) => 3
    case AbortTx(_) => 4
    case Checkpoint => 5
  }

  function TxField(kind: Kind): u64 {
    if kind.Checkpoint? then ABSENT_ID else kind.txId
  }

  function PageField(kind: Kind): u64 {
    if kind.PageImage? then kind.pageId else ABSENT_ID
  }

  function Payload(kind: Kind): Bytes {
    if kind.PageImage? then kind.image else []
  }

  function RecordLen(kind: Kind): nat {
    WAL_HEADER_SIZE + |Payload(kind)|
  }

  // Words

  function Word16(x: u16): (b: Bytes)
    ensures |b| == 2
  {
    [x % 0x100, x / 0x100]
  }

  function Word32(x: u32): (b: Bytes)
    ensures |b| == 4
  {
    Word16(x % 0x1_0000) + Word16(x / 0x1_0000)
  }

  function Word64(x: u64): (b: Bytes)
    ensures |b| == 8
  {
    Word32(x % 0x1_0000_0000) + Word32(x / 0x1_0000_0000)
  }

  /** The header before its checksum. */
  function HeadBytes(lsn: Lsn, kind: Kind): (b: Bytes)
    requires Shaped(kind)
    ensures |b| == OFF_WAL_CHECKSUM
  {
    Word32(WAL_MAGIC) + Word16(WAL_VERSION) + Word16(KindCode(kind)) + Word64(lsn) + Word64(TxField(kind))
      + Word64(PageField(kind)) + Word32(|Payload(kind)|)
  }

  /** The sum of every byte but those of the checksum field. */
  function WalChecksum(b: Bytes): u32
    requires WAL_HEADER_SIZE <= |b|
  {
    (ByteSum(b[..OFF_WAL_CHECKSUM]) + ByteSum(b[WAL_HEADER_SIZE..])) % 0x1_0000_0000
  }

  function RecordBytes(record: WalRecord): (b: Bytes)
    requires Shaped(record.kind)
    ensures |b| == RecordLen(record.kind)
  {
    var head, payload := HeadBytes(record.lsn, record.kind), Payload(record.kind);
    head + Word32((ByteSum(head) + ByteSum(payload)) % 0x1_0000_0000) + payload
  }

  /** Decode one complete record. */
  function DecodeRecord(b: Bytes): Result<WalRecord> {
    if |b| < WAL_HEADER_SIZE then Err(Corruption)
    else if U32At(b, OFF_MAGIC) != WAL_MAGIC || U16At(b, OFF_VERSION) != WAL_VERSION then Err(Corruption)
    else if |b| != WAL_HEADER_SIZE + U32At(b, OFF_PAYLOAD_LEN) then Err(Corruption)
    else if U32At(b, OFF_WAL_CHECKSUM) != WalChecksum(b) then Err(Corruption)
    else
      match KindOf(U16At(b, OFF_KIND), U64At(b, OFF_TX_ID), U64At(b, OFF_RECORD_PAGE), b[WAL_HEADER_SIZE..])
      case None => Err(Corruption)
      case Some(kind) => Ok(WalRecord(U64At(b, OFF_LSN), kind))
  }

  function KindOf(code: u16, txId: TxId, pageId: PageId, payload: Bytes): (r: Option<Kind>)
    ensures r.Some? ==> Shaped(r.value)
  {
    if code == 2 then if |payload| == PAGE_SIZE then Some(PageImage(txId, pageId, payload)) else None
    else if payload != [] then None
    else if code == 1 then Some(BeginTx(txId))
    else if code == 3 then Some(CommitTx(txId))
    else if code == 4 then Some(AbortTx(txId))
    else if code == 5 then Some(Checkpoint)
    else None
  }

  // Round trip

  /** A word read where it was put. */
  lemma ReadWord16(pre: Bytes, x: u16, post: Bytes)
    ensures U16At(pre + Word16(x) + post, |pre|) == x
  {
  }

  lemma ReadWord32(pre: Bytes, x: u32, post: Bytes)
    ensures U32At(pre + Word32(x) + post, |pre|) == x
  {
    var low, high := Word16(x % 0x1_0000), Word16(x / 0x1_0000);
    ReadWord16(pre, x % 0x1_0000, high + post);
    ReadWord16(pre + low, x / 0x1_0000, post);
    assert pre + Word32(x) + post == pre + low + (high + post) == pre + low + high + post;
  }

  lemma ReadWord64(pre: Bytes, x: u64, post: Bytes)
    ensures U64At(pre + Word64(x) + post, |pre|) == x
  {
    hide U32At;
    var low, high := Word32(x % 0x1_0000_0000), Word32(x / 0x1_0000_0000);
    ReadWord32(pre, x % 0x1_0000_0000, high + post);
    ReadWord32(pre + low, x / 0x1_0000_0000, post);
    assert pre + Word64(x) + post == pre + low + (high + post) == pre + low + high + post;
  }

  lemma HeadFields(lsn: Lsn, kind: Kind, post: Bytes)
    requires Shaped(kind)
    ensures var b := HeadBytes(lsn, kind) + post;
      && U32At(b, OFF_MAGIC) == WAL_MAGIC && U16At(b, OFF_VERSION) == WAL_VERSION
      && U16At(b, OFF_KIND) == KindCode(kind) && U64At(b, OFF_LSN) == lsn
      && U64At(b, OFF_TX_ID) == TxField(kind) && U64At(b, OFF_RECORD_PAGE) == PageField(kind)
      && U32At(b, OFF_PAYLOAD_LEN) == |Payload(kind)|
  {
    hide U16At, U32At, U64At, Word16, Word32, Word64;
    var w0, w1, w2, w3 := Word32(WAL_MAGIC), Word16(WAL_VERSION), Word16(KindCode(kind)), Word64(lsn);
    var w4, w5, w6 := Word64(TxField(kind)), Word64(PageField(kind)), Word32(|Payload(kind)|);
    var a1 := w0 + w1;
    var a2 := a1 + w2;
    var a3 := a2 + w3;
    var a4 := a3 + w4;
    var a5 := a4 + w5;
    var p5 := w6 + post;
    var p4 := w5 + p5;
    var p3 := w4 + p4;
    var p2 := w3 + p3;
    var p1 := w2 + p2;
    var p0 := w1 + p1;
    var b := HeadBytes(lsn, kind) + post;
    assert b == a5 + w6 + post;
    ReadWord32(a5, |Payload(kind)|, post);
    assert b == a4 + w5 + p5;
    ReadWord64(a4, PageField(kind), p5);
    assert b == a3 + w4 + p4;
    ReadWord64(a3, TxField(kind), p4);
    assert b == a2 + w3 + p3;
    ReadWord64(a2, lsn, p3);
    assert b == a1 + w2 + p2;
    ReadWord16(a1, KindCode(kind), p2);
    assert b == w0 + w1 + p1;
    ReadWord16(w0, WAL_VERSION, p1);
    assert b == [] + w0 + p0;
    ReadWord32([], WAL_MAGIC, p0);
  }

  /** The header fields of a record, whatever follows it. */
  lemma RecordFields(record: WalRecord, rest: Bytes)
    requires Shaped(record.kind)
    ensures var b := RecordBytes(record) + rest;
      && U32At(b, OFF_MAGIC) == WAL_MAGIC && U16At(b, OFF_VERSION) == WAL_VERSION
      && U16At(b, OFF_KIND) == KindCode(record.kind) && U64At(b, OFF_LSN) == record.lsn
      && U64At(b, OFF_TX_ID) == TxField(record.kind) && U64At(b, OFF_RECORD_PAGE) == PageField(record.kind)
      && U32At(b, OFF_PAYLOAD_LEN) == |Payload(record.kind)|
      && U32At(b, OFF_WAL_CHECKSUM) == (ByteSum(HeadBytes(record.lsn, record.kind)) + ByteSum(Payload(record.kind))) % 0x1_0000_0000
  {
    hide U16At, U32At, U64At, Word32, ByteSum, HeadBytes;
    var head, payload := HeadBytes(record.lsn, record.kind), Payload(record.kind);
    var sum := (ByteSum(head) + ByteSum(payload)) % 0x1_0000_0000;
    var tail := payload + rest;
    assert RecordBytes(record) + rest == head + Word32(sum) + tail;
    assert RecordBytes(record) + rest == head + (Word32(sum) + tail);
    ReadWord32(head, sum, tail);
    HeadFields(record.lsn, record.kind, Word32(sum) + tail);
  }

  /** Decoding an encoded record gives it back. */
  lemma RecordRoundTrip(record: WalRecord)
    requires Shaped(record.kind)
    ensures DecodeRecord(RecordBytes(record)) == Ok(record)
  {
    hide U16At, U32At, U64At, Word32, ByteSum;
    var b := RecordBytes(record);
    assert b + [] == b;
    RecordFields(record, []);
    assert b[..OFF_WAL_CHECKSUM] == HeadBytes(record.lsn, record.kind) && b[WAL_HEADER_SIZE..] == Payload(record.kind);
  }

  // Exactness

  lemma Word16Is(b: Bytes, o: nat)
    requires o + 2 <= |b|
    ensures Word16(U16At(b, o)) == b[o..o + 2]
  {
    assert b[o..o + 2] == [b[o], b[o + 1]];
  }

  lemma Word32Is(b: Bytes, o: nat)
    requires o + 4 <= |b|
    ensures Word32(U32At(b, o)) == b[o..o + 4]
  {
    hide U16At, Word16;
    Word16Is(b, o);
    Word16Is(b, o + 2);
    assert U32At(b, o) % 0x1_0000 == U16At(b, o) && U32At(b, o) / 0x1_0000 == U16At(b, o + 2);
    assert b[o..o + 4] == b[o..o + 2] + b[o + 2..o + 4];
  }

  lemma Word64Is(b: Bytes, o: nat)
    requires o + 8 <= |b|
    ensures Word64(U64At(b, o)) == b[o..o + 8]
  {
    hide U32At, Word32;
    Word32Is(b, o);
    Word32Is(b, o + 4);
    assert U64At(b, o) % 0x1_0000_0000 == U32At(b, o) && U64At(b, o) / 0x1_0000_0000 == U32At(b, o + 4);
    assert b[o..o + 8] == b[o..o + 4] + b[o + 4..o + 8];
  }

  lemma HeadIs(b: Bytes, lsn: Lsn, kind: Kind)
    requires WAL_HEADER_SIZE <= |b| && Shaped(kind)
    requires U32At(b, OFF_MAGIC) == WAL_MAGIC && U16At(b, OFF_VERSION) == WAL_VERSION
    requires U16At(b, OFF_KIND) == KindCode(kind) && U64At(b, OFF_LSN) == lsn
    requires U64At(b, OFF_TX_ID) == TxField(kind) && U64At(b, OFF_RECORD_PAGE) == PageField(kind)
    requires U32At(b, OFF_PAYLOAD_LEN) == |Payload(kind)|
    ensures HeadBytes(lsn, kind) == b[..OFF_WAL_CHECKSUM]
  {
    hide U16At, U32At, U64At, Word16, Word32, Word64;
    Word32Is(b, OFF_MAGIC);
    Word16Is(b, OFF_VERSION);
    Word16Is(b, OFF_KIND);
    Word64Is(b, OFF_LSN);
    Word64Is(b, OFF_TX_ID);
    Word64Is(b, OFF_RECORD_PAGE);
    Word32Is(b, OFF_PAYLOAD_LEN);
    assert b[..OFF_WAL_CHECKSUM] == b[0..4] + b[4..6] + b[6..8] + b[8..16] + b[16..24] + b[24..32] + b[32..36];
  }

  /** Bytes that decode have the length and kind of their record, no payload but a page's, and are its encoding unless
  an id field its kind leaves absent holds something else. */
  lemma DecodedExact(b: Bytes)
    requires DecodeRecord(b).Ok?
    ensures var r := DecodeRecord(b).value;
      && Shaped(r.kind) && |b| == RecordLen(r.kind) && b[WAL_HEADER_SIZE..] == Payload(r.kind)
      && (RecordBytes(r) == b <==>
          U64At(b, OFF_TX_ID) == TxField(r.kind) && U64At(b, OFF_RECORD_PAGE) == PageField(r.kind))
  {
    hide U16At, U32At, U64At, Word32, ByteSum, HeadBytes;
    var r := DecodeRecord(b).value;
    if RecordBytes(r) == b {
      assert RecordBytes(r) + [] == b;
      RecordFields(r, []);
    }
    if U64At(b, OFF_TX_ID) == TxField(r.kind) && U64At(b, OFF_RECORD_PAGE) == PageField(r.kind) {
      HeadIs(b, r.lsn, r.kind);
      Word32Is(b, OFF_WAL_CHECKSUM);
      assert b == b[..OFF_WAL_CHECKSUM] + b[OFF_WAL_CHECKSUM..WAL_HEADER_SIZE] + b[WAL_HEADER_SIZE..];
    }
  }

  // Corruption

  /** Whatever single byte of a record changes, the checksum's and the length's included, the record is rejected. */
  lemma OneByteIsCaught(record: WalRecord, c: Bytes, i: nat)
    requires Shaped(record.kind)
    requires var b := RecordBytes(record); |c| == |b| && i < |b| && c[i] != b[i] && forall j :: 0 <= j < |b| && j != i ==> c[j] == b[j]
    ensures DecodeRecord(c) == Err(Corruption)
  {
    hide U64At, ByteSum, HeadBytes;
    var b := RecordBytes(record);
    assert b + [] == b;
    RecordFields(record, []);
    if i < OFF_PAYLOAD_LEN || WAL_HEADER_SIZE <= i {
      SumChanges(b, c, i);
      WordSame32(b, c, OFF_WAL_CHECKSUM);
      assert b[..OFF_WAL_CHECKSUM] == HeadBytes(record.lsn, record.kind) && b[WAL_HEADER_SIZE..] == Payload(record.kind);
    } else if i < OFF_WAL_CHECKSUM {
      WordChanges(b, c, OFF_PAYLOAD_LEN, i);
    } else {
      assert c[..OFF_WAL_CHECKSUM] == b[..OFF_WAL_CHECKSUM] && c[WAL_HEADER_SIZE..] == b[WAL_HEADER_SIZE..];
      assert b[..OFF_WAL_CHECKSUM] == HeadBytes(record.lsn, record.kind) && b[WAL_HEADER_SIZE..] == Payload(record.kind);
      WordChanges(b, c, OFF_WAL_CHECKSUM, i);
    }
  }

  lemma WordSame32(b: Bytes, c: Bytes, o: nat)
    requires |b| == |c| && o + 4 <= |b| && forall j :: o <= j < o + 4 ==> c[j] == b[j]
    ensures U32At(c, o) == U32At(b, o)
  {
  }

  lemma WordChanges(b: Bytes, c: Bytes, o: nat, i: nat)
    requires |b| == |c| && o + 4 <= |b| && o <= i < o + 4 && c[i] != b[i]
    requires forall j :: o <= j < o + 4 && j != i ==> c[j] == b[j]
    ensures U32At(c, o) != U32At(b, o)
  {
  }

  lemma SumChanges(b: Bytes, c: Bytes, i: nat)
    requires |b| == |c| && WAL_HEADER_SIZE <= |b| <= WAL_HEADER_SIZE + PAGE_SIZE && i < |b|
    requires i < OFF_WAL_CHECKSUM || WAL_HEADER_SIZE <= i
    requires c[i] != b[i] && forall j :: 0 <= j < |b| && j != i ==> c[j] == b[j]
    ensures WalChecksum(c) != WalChecksum(b)
  {
    hide ByteSum;
    var head, tail := b[..OFF_WAL_CHECKSUM], b[WAL_HEADER_SIZE..];
    ByteSumBound(head);
    ByteSumBound(tail);
    if i < OFF_WAL_CHECKSUM {
      assert c[..OFF_WAL_CHECKSUM] == head[i := c[i]] && c[WAL_HEADER_SIZE..] == tail;
      ByteSumUpdate(head, i, c[i]);
    } else {
      var k := i - WAL_HEADER_SIZE;
      assert c[..OFF_WAL_CHECKSUM] == head && c[WAL_HEADER_SIZE..] == tail[k := c[i]];
      ByteSumUpdate(tail, k, c[i]);
    }
    ByteSumBound(c[..OFF_WAL_CHECKSUM]);
    ByteSumBound(c[WAL_HEADER_SIZE..]);
  }

  // The stream

  predicate AllShaped(kinds: seq<Kind>) {
    forall i :: 0 <= i < |kinds| ==> Shaped(kinds[i])
  }

  function StreamLen(kinds: seq<Kind>): nat {
    if kinds == [] then 0 else RecordLen(kinds[0]) + StreamLen(kinds[1..])
  }

  /** The records appended from offset `at` on: each LSN is its byte offset. */
  function RecordsFrom(at: nat, kinds: seq<Kind>): seq<WalRecord>
    requires at + StreamLen(kinds) <= U64_MAX
    decreases |kinds|
  {
    if kinds == [] then [] else [WalRecord(at, kinds[0])] + RecordsFrom(at + RecordLen(kinds[0]), kinds[1..])
  }

  function StreamFrom(at: nat, kinds: seq<Kind>): (b: Bytes)
    requires AllShaped(kinds) && at + StreamLen(kinds) <= U64_MAX
    ensures |b| == StreamLen(kinds)
    decreases |kinds|
  {
    if kinds == [] then []
    else RecordBytes(WalRecord(at, kinds[0])) + StreamFrom(at + RecordLen(kinds[0]), kinds[1..])
  }

  /** Read records to the end of the file. */
  function ReadFrom(at: nat, b: Bytes): Result<seq<WalRecord>>
    decreases |b|
  {
    if b == [] then Ok([])
    else if |b| < WAL_HEADER_SIZE then Err(Corruption)
    else
      var len := WAL_HEADER_SIZE + U32At(b, OFF_PAYLOAD_LEN);
      if |b| < len then Err(Corruption)
      else
        match DecodeRecord(b[..len])
        case Err(error) => Err(error)
        case Ok(record) =>
          if record.lsn != at then Err(Corruption)
          else
            match ReadFrom(at + len, b[len..])
            case Err(error) => Err(error)
            case Ok(rest) => Ok([record] + rest)
  }

  /** What a read makes of the first `cut` bytes of a stream. */
  function CutAt(at: nat, kinds: seq<Kind>, cut: nat): Result<seq<WalRecord>>
    requires at + StreamLen(kinds) <= U64_MAX && cut <= StreamLen(kinds)
    decreases |kinds|
  {
    if cut == 0 then Ok([])
    else if cut < RecordLen(kinds[0]) then Err(Corruption)
    else
      match CutAt(at + RecordLen(kinds[0]), kinds[1..], cut - RecordLen(kinds[0]))
      case Err(error) => Err(error)
      case Ok(rest) => Ok([WalRecord(at, kinds[0])] + rest)
  }

  /** The length field is all a read needs to tell a torn record from a whole one. */
  lemma ReadTorn(at: nat, record: WalRecord, rest: Bytes, cut: nat)
    requires Shaped(record.kind) && 0 < cut < RecordLen(record.kind)
    ensures ReadFrom(at, (RecordBytes(record) + rest)[..cut]) == Err(Corruption)
  {
    hide RecordBytes, DecodeRecord, U32At;
    if WAL_HEADER_SIZE <= cut {
      RecordFields(record, rest);
      HeaderKept(RecordBytes(record) + rest, cut);
    }
  }

  lemma ReadWhole(record: WalRecord, rest: Bytes)
    requires Shaped(record.kind)
    ensures ReadFrom(record.lsn, RecordBytes(record) + rest) ==
      match ReadFrom(record.lsn + RecordLen(record.kind), rest)
      case Err(error) => Err(error)
      case Ok(records) => Ok([record] + records)
  {
    hide RecordBytes, DecodeRecord, U32At;
    var b, len := RecordBytes(record) + rest, RecordLen(record.kind);
    RecordFields(record, rest);
    RecordRoundTrip(record);
    assert b[..len] == RecordBytes(record) && b[len..] == rest;
  }

  lemma StreamSplit(at: nat, kinds: seq<Kind>)
    requires AllShaped(kinds) && at + StreamLen(kinds) <= U64_MAX && (kinds != [] || 0 < StreamLen(kinds))
    ensures kinds != [] && Shaped(kinds[0]) && AllShaped(kinds[1..]) && StreamLen(kinds) == RecordLen(kinds[0]) + StreamLen(kinds[1..])
    ensures StreamFrom(at, kinds) == RecordBytes(WalRecord(at, kinds[0])) + StreamFrom(at + RecordLen(kinds[0]), kinds[1..])
  {
    hide RecordBytes, Payload;
  }

  lemma SliceAcross(a: Bytes, b: Bytes, cut: nat)
    requires |a| <= cut <= |a| + |b|
    ensures (a + b)[..cut] == a + b[..cut - |a|]
  {
  }

  lemma CutStep(at: nat, kinds: seq<Kind>, cut: nat)
    requires at + StreamLen(kinds) <= U64_MAX && 0 < cut <= StreamLen(kinds)
    ensures CutAt(at, kinds, cut) ==
      if cut < RecordLen(kinds[0]) then Err(Corruption)
      else
        match CutAt(at + RecordLen(kinds[0]), kinds[1..], cut - RecordLen(kinds[0]))
        case Err(error) => Err(error)
        case Ok(rest) => Ok([WalRecord(at, kinds[0])] + rest)
  {
    hide Payload;
  }

  lemma {:induction false} ReadCut(at: nat, kinds: seq<Kind>, cut: nat)
    requires AllShaped(kinds) && at + StreamLen(kinds) <= U64_MAX && cut <= StreamLen(kinds)
    ensures ReadFrom(at, StreamFrom(at, kinds)[..cut]) == CutAt(at, kinds, cut)
    decreases |kinds|
  {
    hide ReadFrom, RecordBytes, RecordLen, Shaped, AllShaped, StreamFrom, StreamLen, CutAt;
    if cut == 0 {
      NothingRead(at, kinds);
    } else {
      StreamSplit(at, kinds);
      CutStep(at, kinds, cut);
      var record, len := WalRecord(at, kinds[0]), RecordLen(kinds[0]);
      var rest := StreamFrom(at + len, kinds[1..]);
      if cut < len {
        ReadTorn(at, record, rest, cut);
      } else {
        SliceAcross(RecordBytes(record), rest, cut);
        ReadWhole(record, rest[..cut - len]);
        ReadCut(at + len, kinds[1..], cut - len);
      }
    }
  }

  lemma NothingRead(at: nat, kinds: seq<Kind>)
    requires AllShaped(kinds) && at + StreamLen(kinds) <= U64_MAX
    ensures ReadFrom(at, StreamFrom(at, kinds)[..0]) == CutAt(at, kinds, 0) == Ok([])
  {
    assert StreamFrom(at, kinds)[..0] == [];
  }

  lemma HeaderKept(b: Bytes, cut: nat)
    requires WAL_HEADER_SIZE <= cut <= |b|
    ensures U32At(b[..cut], OFF_PAYLOAD_LEN) == U32At(b, OFF_PAYLOAD_LEN)
  {
  }

  /** A cut after the `n`-th record reads as the first `n` records. */
  lemma {:induction false} CutAtBoundary(at: nat, kinds: seq<Kind>, n: nat)
    requires at + StreamLen(kinds) <= U64_MAX && n <= |kinds|
    ensures StreamLen(kinds[..n]) <= StreamLen(kinds)
    ensures CutAt(at, kinds, StreamLen(kinds[..n])) == Ok(RecordsFrom(at, kinds[..n]))
    decreases |kinds|
  {
    if n > 0 {
      CutAtBoundary(at + RecordLen(kinds[0]), kinds[1..], n - 1);
      assert kinds[..n][1..] == kinds[1..][..n - 1];
    }
  }

  /** A cut anywhere else reads as Corruption. */
  lemma {:induction false} CutElsewhere(at: nat, kinds: seq<Kind>, cut: nat)
    requires at + StreamLen(kinds) <= U64_MAX && cut <= StreamLen(kinds)
    requires forall n :: 0 <= n <= |kinds| ==> StreamLen(kinds[..n]) != cut
    ensures CutAt(at, kinds, cut) == Err(Corruption)
    decreases |kinds|
  {
    assert kinds[..0] == [];
    if cut >= RecordLen(kinds[0]) {
      var len := RecordLen(kinds[0]);
      forall n | 0 <= n <= |kinds[1..]| ensures StreamLen(kinds[1..][..n]) != cut - len {
        assert kinds[..n + 1][1..] == kinds[1..][..n];
        assert StreamLen(kinds[..n + 1]) == len + StreamLen(kinds[1..][..n]);
      }
      CutElsewhere(at + len, kinds[1..], cut - len);
    }
  }

  /** A log file cut short reads as its first records exactly when the cut is between records. */
  lemma CutIsDetected(kinds: seq<Kind>, cut: nat)
    requires AllShaped(kinds) && StreamLen(kinds) <= U64_MAX && cut <= StreamLen(kinds)
    ensures var r := ReadFrom(0, StreamFrom(0, kinds)[..cut]);
      && (forall n :: 0 <= n <= |kinds| && StreamLen(kinds[..n]) == cut ==>
            StreamLen(kinds[..n]) <= U64_MAX && r == Ok(RecordsFrom(0, kinds[..n])))
      && ((forall n :: 0 <= n <= |kinds| ==> StreamLen(kinds[..n]) != cut) ==> r == Err(Corruption))
  {
    ReadCut(0, kinds, cut);
    forall n | 0 <= n <= |kinds| && StreamLen(kinds[..n]) == cut
      ensures CutAt(0, kinds, cut) == Ok(RecordsFrom(0, kinds[..n]))
    {
      CutAtBoundary(0, kinds, n);
    }
    if forall n :: 0 <= n <= |kinds| ==> StreamLen(kinds[..n]) != cut {
      CutElsewhere(0, kinds, cut);
    }
  }

  // Writing and reading the file

  /** The words determine the bytes they are read from. */
  lemma WordsOf(b: Bytes, o: nat)
    ensures o + 2 <= |b| ==> b[o..o + 2] == Word16(U16At(b, o))
  {
  }

  lemma Words32Of(b: Bytes, o: nat)
    requires o + 4 <= |b|
    ensures b[o..o + 4] == Word32(U32At(b, o))
  {
    hide U16At, Word16;
    WordsOf(b, o);
    WordsOf(b, o + 2);
    Halves16(U16At(b, o), U16At(b, o + 2));
    assert b[o..o + 4] == b[o..o + 2] + b[o + 2..o + 4];
  }

  lemma Halves16(low: u16, high: u16)
    ensures (low as int + 0x1_0000 * high as int) % 0x1_0000 == low
    ensures (low as int + 0x1_0000 * high as int) / 0x1_0000 == high
  {
  }

  lemma Words64Of(b: Bytes, o: nat)
    requires o + 8 <= |b|
    ensures b[o..o + 8] == Word64(U64At(b, o))
  {
    hide U32At, Word32;
    Words32Of(b, o);
    Words32Of(b, o + 4);
    Halves32(U32At(b, o), U32At(b, o + 4));
    assert b[o..o + 8] == b[o..o + 4] + b[o + 4..o + 8];
  }

  lemma Halves32(low: u32, high: u32)
    ensures (low as int + 0x1_0000_0000 * high as int) % 0x1_0000_0000 == low
    ensures (low as int + 0x1_0000_0000 * high as int) / 0x1_0000_0000 == high
  {
  }
}
