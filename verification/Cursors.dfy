/** A reading position that moves along a record's bytes, and lists read or written item by item. */
module Cursors {
  import opened Core
  import opened Encoding

  /** `r` is what `p` parsed, and `rest` what it left. */
  ghost predicate Reading<T>(p: Option<Parsed<T>>, r: Result<T>, rest: Bytes) {
    match p
    case None => r == Err(Corruption)
    case Some(q) => r == Ok(q.value) && rest == q.rest
  }

  class DecodeCursor {
    const bytes: Bytes
    var offset: nat

    constructor (bytes: Bytes)
      ensures Valid() && Rest() == bytes && this.bytes == bytes
    {
      this.bytes, offset := bytes, 0;
    }

    ghost predicate Valid()
      reads this
    {
      offset <= |bytes|
    }

    /** The bytes not read yet. */
    ghost function Rest(): Bytes
      requires Valid()
      reads this
    {
      bytes[offset..]
    }

    method ReadBytes(len: nat) returns (r: Result<Bytes>)
      requires Valid()
      modifies this
      ensures Valid() && Reading(TakeBytes(old(Rest()), len), r, Rest())
    {
      if offset + len > |bytes| {
        return Err(Corruption);
      }
      assert bytes[offset..][..len] == bytes[offset..offset + len];
      assert bytes[offset..][len..] == bytes[offset + len..];
      r := Ok(bytes[offset..offset + len]);
      offset := offset + len;
    }

    method ReadU8() returns (r: Result<u8>)
      requires Valid()
      modifies this
      ensures Valid()
      ensures if old(Rest()) == [] then r == Err(Corruption) else r == Ok(old(Rest())[0]) && Rest() == old(Rest())[1..]
    {
      var b :- ReadBytes(1);
      r := Ok(b[0]);
    }

    method ReadInt(width: nat) returns (r: Result<nat>)
      requires Valid()
      modifies this
      ensures Valid() && Reading(TakeInt(old(Rest()), width), r, Rest())
      ensures r.Ok? ==> r.value < Pow256(width)
    {
      var b :- ReadBytes(width);
      FromLittleEndianRoundTrip(b);
      r := Ok(FromLittleEndian(b));
    }

    method ReadU64() returns (r: Result<u64>)
      requires Valid()
      modifies this
      ensures Valid() && Reading(ParseU64(old(Rest())), r, Rest())
    {
      PowersOf256();
      var x :- ReadInt(8);
      r := Ok(x);
    }

    /** A string under a two-byte length. */
    method ReadString() returns (r: Result<Text>)
      requires Valid()
      modifies this
      ensures Valid() && Reading(ParseText(old(Rest())), r, Rest())
    {
      hide Utf8;
      var len :- ReadInt(2);
      var b :- ReadBytes(len);
      r := if Utf8(b) then Ok(b) else Err(Corruption);
    }

    method IsFinished() returns (finished: bool)
      requires Valid()
      ensures finished <==> Rest() == []
    {
      finished := offset == |bytes|;
    }
  }

  // Lists

  /** Items already read, then the list still to come. */
  function Continued<T>(parse: Parser<T>, done: seq<T>, b: Bytes, n: nat): Option<Parsed<seq<T>>> {
    match ParseList(parse, b, n)
    case None => None
    case Some(p) => Some(Parsed(done + p.value, p.rest))
  }

  lemma ContinuedFrom<T>(parse: Parser<T>, b: Bytes, n: nat)
    ensures Continued(parse, [], b, n) == ParseList(parse, b, n)
  {
    var p := ParseList(parse, b, n);
    assert p.Some? ==> [] + p.value.value == p.value.value;
  }

  lemma ContinuedStep<T>(parse: Parser<T>, done: seq<T>, b: Bytes, n: nat)
    requires n > 0
    ensures Continued(parse, done, b, n) ==
      match parse(b)
      case None => None
      case Some(x) => Continued(parse, done + [x.value], x.rest, n - 1)
  {
    match parse(b)
    case None =>
    case Some(x) =>
      match ParseList(parse, x.rest, n - 1)
      case None =>
      case Some(p) =>
        assert done + ([x.value] + p.value) == done + [x.value] + p.value;
  }

  lemma {:induction false} ListBytesAppend<T>(bytes: T -> Bytes, xs: seq<T>, x: T)
    ensures ListBytes(bytes, xs + [x]) == ListBytes(bytes, xs) + bytes(x)
  {
    if xs == [] {
      assert [x][1..] == [];
      assert ListBytes(bytes, [x]) == bytes(x) + ListBytes(bytes, []);
    } else {
      ListBytesAppend(bytes, xs[1..], x);
      assert (xs + [x])[1..] == xs[1..] + [x];
      assert bytes(xs[0]) + (ListBytes(bytes, xs[1..]) + bytes(x)) == bytes(xs[0]) + ListBytes(bytes, xs[1..]) + bytes(x);
    }
  }

  lemma ListBytesStep<T>(bytes: T -> Bytes, xs: seq<T>, i: nat, before: Bytes)
    requires i < |xs|
    ensures before + ListBytes(bytes, xs[..i + 1]) == before + ListBytes(bytes, xs[..i]) + bytes(xs[i])
  {
    assert xs[..i + 1] == xs[..i] + [xs[i]];
    ListBytesAppend(bytes, xs[..i], xs[i]);
  }

  // Page ids

  method EncodePageIds(bytes0: Bytes, ids: seq<PageId>) returns (bytes: Bytes)
    ensures bytes == bytes0 + ListBytes(PageIdBytes, ids)
  {
    hide LittleEndian;
    bytes := bytes0;
    assert bytes0 + ListBytes(PageIdBytes, []) == bytes0;
    for i := 0 to |ids|
      invariant bytes == bytes0 + ListBytes(PageIdBytes, ids[..i])
    {
      ListBytesStep(PageIdBytes, ids, i, bytes0);
      bytes := bytes + U64Bytes(ids[i]);
    }
    assert ids[..|ids|] == ids;
  }

  method DecodePageIds(cursor: DecodeCursor, count: nat) returns (r: Result<seq<PageId>>)
    requires cursor.Valid()
    modifies cursor
    ensures cursor.Valid() && Reading(ParseList(ParseU64, old(cursor.Rest()), count), r, cursor.Rest())
  {
    hide ParseU64;
    ghost var start := cursor.Rest();
    var ids: seq<PageId> := [];
    ContinuedFrom(ParseU64, start, count);
    for i := 0 to count
      invariant cursor.Valid()
      invariant ParseList(ParseU64, start, count) == Continued(ParseU64, ids, cursor.Rest(), count - i)
    {
      ContinuedStep(ParseU64, ids, cursor.Rest(), count - i);
      var id :- cursor.ReadU64();
      ids := ids + [id];
    }
    assert ids + [] == ids;
    r := Ok(ids);
  }
}
