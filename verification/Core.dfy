/** Identifiers, error classes and machine integers shared by every layer.

Error messages carry no meaning for a caller, so an error is its class alone. */
module Core {

  type u8 = x: int | 0 <= x < 0x100
  type u16 = x: int | 0 <= x < 0x1_0000
  type u32 = x: int | 0 <= x < 0x1_0000_0000
  type u64 = x: int | 0 <= x < 0x1_0000_0000_0000_0000
  type i64 = x: int | -0x8000_0000_0000_0000 <= x < 0x8000_0000_0000_0000

  const U16_MAX: u16 := 0xFFFF
  const U64_MAX: u64 := 0xFFFF_FFFF_FFFF_FFFF

  type Bytes = seq<u8>

  type PageId = u64
  type SlotId = u16
  type RelationId = u64
  type TxId = u64
  type Lsn = u64

  /** Physical address of a heap row. */
  datatype RowId = RowId(pageId: PageId, slotId: SlotId)

  datatype DbError = User | Retryable | Io | Corruption | InternalInvariant

  datatype Option<+T> = None | Some(value: T) {
    predicate IsFailure() {
      None?
    }

    function PropagateFailure<U>(): Option<U>
      requires None?
    {
      None
    }

    function Extract(): T
      requires Some?
    {
      value
    }
  }

  datatype Result<+T> = Ok(value: T) | Err(error: DbError) {
    predicate IsFailure() {
      Err?
    }

    function PropagateFailure<U>(): Result<U>
      requires Err?
    {
      Err(error)
    }

    function Extract(): T
      requires Ok?
    {
      value
    }
  }

  /** Well-formed UTF-8 (table 3-7 of the Unicode standard): what the source's strings hold. */
  predicate Utf8(b: Bytes) {
    b == [] ||
    (b[0] < 0x80 && Utf8(b[1..])) ||
    (|b| >= 2 && 0xC2 <= b[0] <= 0xDF && Trail(b[1], 0x80, 0xBF) && Utf8(b[2..])) ||
    (|b| >= 3 && 0xE0 <= b[0] <= 0xEF && Trail(b[2], 0x80, 0xBF) && Utf8(b[3..]) &&
     Trail(b[1], if b[0] == 0xE0 then 0xA0 else 0x80, if b[0] == 0xED then 0x9F else 0xBF)) ||
    (|b| >= 4 && 0xF0 <= b[0] <= 0xF4 && Trail(b[2], 0x80, 0xBF) && Trail(b[3], 0x80, 0xBF) && Utf8(b[4..]) &&
     Trail(b[1], if b[0] == 0xF0 then 0x90 else 0x80, if b[0] == 0xF4 then 0x8F else 0xBF))
  }

  predicate Trail(x: u8, lo: u8, hi: u8) {
    lo <= x <= hi
  }

  /** The bytes of a string. */
  type Text = b: Bytes | Utf8(b)
}
