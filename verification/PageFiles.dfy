/** The data file: page `n` at byte `4096 n`, so that writing one page touches no other. */
module PageFiles {
  import opened Core
  import opened SlottedModel
  import opened PageBytes
  import opened SlottedPages

  /** Where a page starts, when that is a file offset. */
  function PageOffset(pageId: PageId): Result<u64> {
    if pageId * PAGE_SIZE > U64_MAX then Err(User) else Ok(pageId * PAGE_SIZE)
  }

  function Zeros(n: nat): (b: Bytes)
    ensures |b| == n && forall i :: 0 <= i < n ==> b[i] == 0
  {
    seq(n, _ => 0)
  }

  /** A file after a write: bytes never written before it read as zero. */
  function Overwritten(b: Bytes, o: nat, data: Bytes): Bytes {
    var padded := if |b| < o then b + Zeros(o - |b|) else b;
    padded[..o] + data + if o + |data| <= |padded| then padded[o + |data|..] else []
  }

  /** The bytes in a page's range, when the file reaches its end. */
  function RangeOf(b: Bytes, pageId: PageId): Option<Bytes> {
    if (pageId + 1) * PAGE_SIZE <= |b| then Some(b[pageId * PAGE_SIZE..(pageId + 1) * PAGE_SIZE]) else None
  }

  /** The page a reader finds: valid bytes that carry the id they are asked for under. */
  function PageAt(b: Bytes, pageId: PageId): Option<Bytes> {
    match RangeOf(b, pageId)
    case None => None
    case Some(p) => if Validates(p) && HeaderOf(p).value.pageId == pageId then Some(p) else None
  }

  lemma ZerosAreNoPage(p: Bytes)
    requires |p| == PAGE_SIZE && forall i :: 0 <= i < PAGE_SIZE ==> p[i] == 0
    ensures !Validates(p)
  {
    assert U32At(p, OFF_MAGIC) == 0;
  }

  /** The file holds whole pages. */
  predicate WholePages(b: Bytes) {
    |b| % PAGE_SIZE == 0
  }

  /** A page written is what its range holds from then on, and what any other range holds is as before. */
  lemma WriteIsLocal(b: Bytes, pageId: PageId, data: Bytes, other: PageId)
    requires |data| == PAGE_SIZE && WholePages(b)
    ensures var c := Overwritten(b, pageId * PAGE_SIZE, data);
      && WholePages(c)
      && RangeOf(c, pageId) == Some(data)
      && (other != pageId ==> PageAt(c, other) == PageAt(b, other))
  {
    hide Validates, HeaderOf;
    var o, q := pageId * PAGE_SIZE, other * PAGE_SIZE;
    var c := Overwritten(b, o, data);
    assert c[o..o + PAGE_SIZE] == data;
    if other != pageId {
      assert q + PAGE_SIZE <= o || o + PAGE_SIZE <= q;
      if q + PAGE_SIZE <= |b| {
        RangeKept(b, o, data, q);
      } else if q + PAGE_SIZE <= |c| {
        PaddingIsNoPage(b, pageId, data, other);
      }
    }
  }

  lemma RangeKept(b: Bytes, o: nat, data: Bytes, q: nat)
    requires |data| == PAGE_SIZE && q + PAGE_SIZE <= |b| && (q + PAGE_SIZE <= o || o + PAGE_SIZE <= q)
    ensures var c := Overwritten(b, o, data); q + PAGE_SIZE <= |c| && c[q..q + PAGE_SIZE] == b[q..q + PAGE_SIZE]
  {
    var c := Overwritten(b, o, data);
    forall k | q <= k < q + PAGE_SIZE ensures k < |c| && c[k] == b[k] {
    }
  }

  /** A range the write only pads reads as zeros. */
  lemma PaddingIsNoPage(b: Bytes, pageId: PageId, data: Bytes, other: PageId)
    requires |data| == PAGE_SIZE && other != pageId && WholePages(b)
    requires |b| < (other + 1) * PAGE_SIZE <= |Overwritten(b, pageId * PAGE_SIZE, data)|
    ensures PageAt(Overwritten(b, pageId * PAGE_SIZE, data), other) == None
  {
    var q := other * PAGE_SIZE;
    var c := Overwritten(b, pageId * PAGE_SIZE, data);
    var p := c[q..q + PAGE_SIZE];
    assert forall i :: 0 <= i < PAGE_SIZE ==> p[i] == 0;
    ZerosAreNoPage(p);
  }

  class PageFile {
    var bytes: Bytes

    constructor ()
      ensures Valid() && bytes == []
    {
      bytes := [];
    }

    ghost predicate Valid()
      reads this
    {
      WholePages(bytes)
    }

    /** Write a valid page at its own id. */
    method WritePageAt(pageId: PageId, page: SlottedPage) returns (r: Result<()>)
      requires Valid() && page.Valid()
      modifies this
      ensures Valid()
      ensures r == if page.Head().pageId != pageId then Err(User)
                   else if PageOffset(pageId).Err? then Err(User) else Ok(())
      ensures r.Err? ==> bytes == old(bytes)
      ensures r.Ok? ==>
        && PageAt(bytes, pageId) == Some(page.bytes[..])
        && forall other: PageId :: other != pageId ==> PageAt(bytes, other) == PageAt(old(bytes), other)
    {
      hide Validates, HeaderOf, Sane, Overwritten, RangeOf;
      ghost var b, data := bytes, page.bytes[..];
      PageIsValid(page);
      var valid := page.Validate();
      if valid.Err? {
        return Err(User);
      }
      var header := page.Header();
      match header
      case Err(_) =>
        r := Err(User);
      case Ok(h) =>
        if h.pageId != pageId {
          return Err(User);
        }
        match PageOffset(pageId)
        case Err(error) =>
          r := Err(error);
        case Ok(offset) =>
          bytes := Overwritten(bytes, offset, page.bytes[..]);
          forall other: PageId ensures other != pageId ==> PageAt(bytes, other) == PageAt(b, other) {
            WriteIsLocal(b, pageId, data, other);
          }
          WriteIsLocal(b, pageId, data, pageId);
          r := Ok(());
    }

    /** Read the page in a range, if it is valid and carries that id. */
    method ReadPage(pageId: PageId) returns (r: Result<SlottedPage>)
      requires Valid()
      ensures match PageAt(bytes, pageId)
        case Some(p) =>
          PageOffset(pageId).Ok? ==> r.Ok? && fresh(r.value) && r.value.bytes[..] == p && (Sane(p) ==> r.value.Valid())
        case None =>
          r == if PageOffset(pageId).Err? then Err(User)
               else if RangeOf(bytes, pageId).None? then Err(Io) else Err(Corruption)
    {
      hide Validates, HeaderOf, Sane;
      match PageOffset(pageId)
      case Err(error) =>
        r := Err(error);
      case Ok(offset) =>
        match RangeOf(bytes, pageId)
        case None =>
          r := Err(Io);
        case Some(contents) =>
          var parsed := SlottedPage.FromBytes(contents);
          match parsed
          case Err(error) =>
            r := Err(error);
          case Ok(page) =>
            ValidHeader(contents);
            var header := page.Header();
            match header
            case Err(error) =>
              r := Err(error);
            case Ok(h) =>
              r := if h.pageId != pageId then Err(Corruption) else Ok(page);
    }
  }

  lemma PageIsValid(page: SlottedPage)
    requires page.Valid()
    ensures |page.bytes[..]| == PAGE_SIZE && Validates(page.bytes[..])
    ensures HeaderOf(page.bytes[..]) == Ok(page.Head())
  {
    SaneValidates(page.bytes[..]);
  }

  lemma ValidHeader(p: Bytes)
    requires |p| == PAGE_SIZE && Validates(p)
    ensures HeaderOf(p).Ok?
  {
  }
}
