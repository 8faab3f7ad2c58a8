/** Little-endian integers. */
module Encoding {
  import opened Core

  /** The low `n` bytes of `x`, least significant first. */
  function LittleEndian(x: nat, n: nat): (b: Bytes)
    ensures |b| == n
  {
    if n == 0 then [] else [x % 256] + LittleEndian(x / 256, n - 1)
  }

  function FromLittleEndian(b: Bytes): nat {
    if b == [] then 0 else b[0] + 256 * FromLittleEndian(b[1..])
  }

  function Pow256(n: nat): nat {
    if n == 0 then 1 else 256 * Pow256(n - 1)
  }

  lemma {:induction false} LittleEndianRoundTrip(x: nat, n: nat)
    requires x < Pow256(n)
    ensures FromLittleEndian(LittleEndian(x, n)) == x
  {
    if n > 0 {
      LittleEndianRoundTrip(x / 256, n - 1);
    }
  }

  lemma LowByte(low: u8, high: nat)
    ensures (low + 256 * high) / 256 == high && (low + 256 * high) % 256 == low
  {
  }

  lemma {:induction false} FromLittleEndianRoundTrip(b: Bytes)
    ensures FromLittleEndian(b) < Pow256(|b|)
    ensures LittleEndian(FromLittleEndian(b), |b|) == b
  {
    if b != [] {
      FromLittleEndianRoundTrip(b[1..]);
      LowByte(b[0], FromLittleEndian(b[1..]));
      assert b == [b[0]] + b[1..];
    }
  }

  function U16Bytes(x: nat): (b: Bytes)
    ensures |b| == 2
  {
    LittleEndian(x, 2)
  }

  function U32Bytes(x: nat): (b: Bytes)
    ensures |b| == 4
  {
    LittleEndian(x, 4)
  }

  function U64Bytes(x: nat): (b: Bytes)
    ensures |b| == 8
  {
    LittleEndian(x, 8)
  }

  /** Two's complement. */
  function I64Bits(x: i64): u64 {
    if x >= 0 then x else x + 0x1_0000_0000_0000_0000
  }

  function I64FromBits(x: u64): i64 {
    if x < 0x8000_0000_0000_0000 then x else x - 0x1_0000_0000_0000_0000
  }

  /** A value read off the front of some bytes, and the bytes left. */
  datatype Parsed<+T> = Parsed(value: T, rest: Bytes)

  function TakeBytes(b: Bytes, n: nat): Option<Parsed<Bytes>> {
    if |b| < n then None else Some(Parsed(b[..n], b[n..]))
  }

  function TakeInt(b: Bytes, n: nat): (r: Option<Parsed<nat>>)
    ensures r.Some? ==> r.value.value < Pow256(n)
  {
    if |b| < n then None else (FromLittleEndianRoundTrip(b[..n]); Some(Parsed(FromLittleEndian(b[..n]), b[n..])))
  }

  lemma PowersOf256()
    ensures Pow256(1) == 0x100 && Pow256(2) == 0x1_0000 && Pow256(4) == 0x1_0000_0000
    ensures Pow256(8) == 0x1_0000_0000_0000_0000
  {
    assert Pow256(4) == 256 * Pow256(3) && Pow256(3) == 256 * Pow256(2);
    assert Pow256(8) == 256 * (256 * (256 * (256 * Pow256(4))));
  }

  lemma TakeBytesRoundTrip(b: Bytes, rest: Bytes)
    ensures TakeBytes(b + rest, |b|) == Some(Parsed(b, rest))
  {
  }

  lemma TakeIntRoundTrip(x: nat, n: nat, rest: Bytes)
    requires x < Pow256(n)
    ensures TakeInt(LittleEndian(x, n) + rest, n) == Some(Parsed(x, rest))
  {
    LittleEndianRoundTrip(x, n);
    var b := LittleEndian(x, n);
    assert (b + rest)[..n] == b && (b + rest)[n..] == rest;
  }

  lemma TakeIntExact(b: Bytes, n: nat)
    requires TakeInt(b, n).Some?
    ensures b == LittleEndian(TakeInt(b, n).value.value, n) + TakeInt(b, n).value.rest
  {
    FromLittleEndianRoundTrip(b[..n]);
    assert b == b[..n] + b[n..];
  }

  /** What follows a tag byte. */
  lemma Untag(tag: u8, a: Bytes, b: Bytes, rest: Bytes)
    ensures ([tag] + (a + b) + rest)[0] == tag
    ensures ([tag] + (a + b) + rest)[1..] == a + (b + rest)
  {
  }

  lemma Regroup(a: Bytes, b: Bytes, c: Bytes, d: Bytes, rest: Bytes)
    ensures a + (b + (c + d)) + rest == a + (b + (c + (d + rest)))
  {
  }

  // Lists: the items one after another

  type Parser<!T> = Bytes -> Option<Parsed<T>>

  /** `parse` reads `x` off the front of its bytes and leaves what follows. */
  ghost predicate Reads<T(!new)>(parse: Parser<T>, bytes: T -> Bytes, x: T) {
    forall rest: Bytes :: parse(bytes(x) + rest) == Some(Parsed(x, rest))
  }

  /** Whatever `parse` accepts is the bytes of what it returns, and what it left. */
  ghost predicate Exact<T(!new)>(parse: Parser<T>, bytes: T -> Bytes) {
    forall b: Bytes :: parse(b).Some? ==> b == bytes(parse(b).value.value) + parse(b).value.rest
  }

  function ListBytes<T>(bytes: T -> Bytes, xs: seq<T>): Bytes {
    if xs == [] then [] else bytes(xs[0]) + ListBytes(bytes, xs[1..])
  }

  function ParseList<T>(parse: Parser<T>, b: Bytes, n: nat): (r: Option<Parsed<seq<T>>>)
    ensures r.Some? ==> |r.value.value| == n
    decreases n
  {
    if n == 0 then Some(Parsed([], b))
    else
      var x :- parse(b);
      var xs :- ParseList(parse, x.rest, n - 1);
      Some(Parsed([x.value] + xs.value, xs.rest))
  }

  lemma {:induction false} ListRoundTrip<T(!new)>(parse: Parser<T>, bytes: T -> Bytes, xs: seq<T>, rest: Bytes)
    requires forall i :: 0 <= i < |xs| ==> Reads(parse, bytes, xs[i])
    ensures ParseList(parse, ListBytes(bytes, xs) + rest, |xs|) == Some(Parsed(xs, rest))
  {
    if xs == [] {
      assert ListBytes(bytes, xs) + rest == rest;
    } else {
      var tail := ListBytes(bytes, xs[1..]) + rest;
      assert ListBytes(bytes, xs) + rest == bytes(xs[0]) + tail;
      assert Reads(parse, bytes, xs[0]);
      ListRoundTrip(parse, bytes, xs[1..], rest);
      assert xs == [xs[0]] + xs[1..];
    }
  }

  lemma {:induction false} ListExact<T(!new)>(parse: Parser<T>, bytes: T -> Bytes, b: Bytes, n: nat)
    requires Exact(parse, bytes) && ParseList(parse, b, n).Some?
    ensures var p := ParseList(parse, b, n).value; b == ListBytes(bytes, p.value) + p.rest
    decreases n
  {
    if n > 0 {
      var x := parse(b).value;
      ListExact(parse, bytes, x.rest, n - 1);
      var xs := ParseList(parse, x.rest, n - 1).value;
      assert ([x.value] + xs.value)[1..] == xs.value;
      assert bytes(x.value) + (ListBytes(bytes, xs.value) + xs.rest)
          == bytes(x.value) + ListBytes(bytes, xs.value) + xs.rest;
    }
  }

  // Page ids

  function ParseU64(b: Bytes): Option<Parsed<u64>> {
    var p :- TakeInt(b, 8);
    PowersOf256();
    Some(Parsed(p.value, p.rest))
  }

  lemma ParseU64RoundTrip(x: u64, rest: Bytes)
    ensures ParseU64(U64Bytes(x) + rest) == Some(Parsed(x, rest))
  {
    PowersOf256();
    TakeIntRoundTrip(x, 8, rest);
  }

  function PageIdBytes(id: PageId): Bytes {
    U64Bytes(id)
  }

  lemma ParsePageIdsRoundTrip(ids: seq<PageId>, rest: Bytes)
    ensures ParseList(ParseU64, ListBytes(PageIdBytes, ids) + rest, |ids|) == Some(Parsed(ids, rest))
  {
    forall i | 0 <= i < |ids| ensures Reads(ParseU64, PageIdBytes, ids[i]) {
      forall rest: Bytes ensures ParseU64(PageIdBytes(ids[i]) + rest) == Some(Parsed(ids[i], rest)) {
        ParseU64RoundTrip(ids[i], rest);
      }
    }
    ListRoundTrip(ParseU64, PageIdBytes, ids, rest);
  }

  lemma ParsePageIdsExact(b: Bytes, n: nat)
    requires ParseList(ParseU64, b, n).Some?
    ensures var p := ParseList(ParseU64, b, n).value; b == ListBytes(PageIdBytes, p.value) + p.rest
  {
    forall b: Bytes | ParseU64(b).Some?
      ensures b == PageIdBytes(ParseU64(b).value.value) + ParseU64(b).value.rest
    {
      TakeIntExact(b, 8);
    }
    ListExact(ParseU64, PageIdBytes, b, n);
  }

  // Texts: a two-byte length and the bytes

  function TextBytes(t: Text): Bytes {
    U16Bytes(|t|) + t
  }

  function ParseText(b: Bytes): Option<Parsed<Text>> {
    var n :- TakeInt(b, 2);
    var p :- TakeBytes(n.rest, n.value);
    if Utf8(p.value) then Some(Parsed(p.value, p.rest)) else None
  }

  lemma ParseTextRoundTrip(t: Text, rest: Bytes)
    requires |t| <= U16_MAX
    ensures ParseText(TextBytes(t) + rest) == Some(Parsed(t, rest))
  {
    PowersOf256();
    assert TextBytes(t) + rest == U16Bytes(|t|) + (t + rest);
    TakeIntRoundTrip(|t|, 2, t + rest);
    TakeBytesRoundTrip(t, rest);
  }

  lemma ParseTextExact(b: Bytes)
    requires ParseText(b).Some?
    ensures var p := ParseText(b).value; b == TextBytes(p.value) + p.rest && |p.value| <= U16_MAX
  {
    hide Utf8;
    PowersOf256();
    TakeIntExact(b, 2);
    var n := TakeInt(b, 2).value;
    assert n.rest == n.rest[..n.value] + n.rest[n.value..];
  }
}
