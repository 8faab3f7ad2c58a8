/** SQL values and the bytes of a row. */
module RowCodec {
  import opened Core
  import opened Encoding

  /** A double is its eight bytes. */
  datatype Value = Null | Integer(value: i64) | Text(text: Core.Text) | Double(bits: u64)

  const ROW_MAGIC: Bytes := [0x52, 0x44, 0x42, 0x52] // "RDBR"
  const ROW_VERSION: u16 := 1
  const TAG_NULL: u8 := 0
  const TAG_INTEGER: u8 := 1
  const TAG_TEXT: u8 := 2
  const TAG_DOUBLE: u8 := 3

  function ValueBytes(v: Value): Bytes {
    match v
    case Null => [TAG_NULL]
    case Integer(value) => [TAG_INTEGER] + U64Bytes(I64Bits(value))
    case Text(text) => [TAG_TEXT] + (U32Bytes(|text|) + text)
    case Double(bits) => [TAG_DOUBLE] + U64Bytes(bits)
  }

  function ValuesBytes(vs: seq<Value>): Bytes {
    ListBytes(ValueBytes, vs)
  }

  function RowBytes(vs: seq<Value>): Bytes {
    ROW_MAGIC + (U16Bytes(ROW_VERSION) + (U16Bytes(|vs|) + ValuesBytes(vs)))
  }

  /** Every length fits the field that stores it. */
  predicate Encodable(vs: seq<Value>) {
    |vs| <= U16_MAX && AllFit(vs)
  }

  predicate AllFit(vs: seq<Value>) {
    forall i :: 0 <= i < |vs| ==> ValueFits(vs[i])
  }

  predicate ValueFits(v: Value) {
    v.Text? ==> |v.text| < 0x1_0000_0000
  }

  function ParseValue(b: Bytes): Option<Parsed<Value>> {
    if b == [] then None
    else if b[0] == TAG_NULL then Some(Parsed(Null, b[1..]))
    else if b[0] == TAG_INTEGER then
      var p :- TakeInt(b[1..], 8);
      PowersOf256();
      Some(Parsed(Integer(I64FromBits(p.value)), p.rest))
    else if b[0] == TAG_TEXT then
      var n :- TakeInt(b[1..], 4);
      var p :- TakeBytes(n.rest, n.value);
      if Utf8(p.value) then Some(Parsed(Text(p.value), p.rest)) else None
    else if b[0] == TAG_DOUBLE then
      var p :- TakeInt(b[1..], 8);
      PowersOf256();
      Some(Parsed(Double(p.value), p.rest))
    else None
  }

  function ParseValues(b: Bytes, n: nat): Option<Parsed<seq<Value>>> {
    ParseList(ParseValue, b, n)
  }

  function ParseHeader(b: Bytes): Option<Parsed<()>> {
    var magic :- TakeBytes(b, 4);
    var version :- TakeInt(magic.rest, 2);
    if magic.value != ROW_MAGIC || version.value != ROW_VERSION then None else Some(Parsed((), version.rest))
  }

  function ParseCounted(b: Bytes): Option<Parsed<seq<Value>>> {
    var n :- TakeInt(b, 2);
    ParseValues(n.rest, n.value)
  }

  function ParseRow(b: Bytes): Option<seq<Value>> {
    var header :- ParseHeader(b);
    var vs :- ParseCounted(header.rest);
    if vs.rest == [] then Some(vs.value) else None
  }

  lemma ParseTextValue(text: Core.Text, rest: Bytes)
    requires |text| < 0x1_0000_0000
    ensures ParseValue(ValueBytes(Text(text)) + rest) == Some(Parsed(Text(text), rest))
  {
    PowersOf256();
    Untag(TAG_TEXT, U32Bytes(|text|), text, rest);
    TakeIntRoundTrip(|text|, 4, text + rest);
    TakeBytesRoundTrip(text, rest);
  }

  lemma ParseValueRoundTrip(v: Value, rest: Bytes)
    requires ValueFits(v)
    ensures ParseValue(ValueBytes(v) + rest) == Some(Parsed(v, rest))
  {
    PowersOf256();
    var b := ValueBytes(v) + rest;
    match v
    case Null =>
      assert b[1..] == rest;
    case Integer(value) =>
      assert b[1..] == U64Bytes(I64Bits(value)) + rest;
      TakeIntRoundTrip(I64Bits(value), 8, rest);
    case Text(text) =>
      ParseTextValue(text, rest);
    case Double(bits) =>
      assert b[1..] == U64Bytes(bits) + rest;
      TakeIntRoundTrip(bits, 8, rest);
  }

  lemma ParseValuesRoundTrip(vs: seq<Value>, rest: Bytes)
    requires AllFit(vs)
    ensures ParseValues(ValuesBytes(vs) + rest, |vs|) == Some(Parsed(vs, rest))
  {
    forall i | 0 <= i < |vs| ensures Reads(ParseValue, ValueBytes, vs[i]) {
      forall rest: Bytes ensures ParseValue(ValueBytes(vs[i]) + rest) == Some(Parsed(vs[i], rest)) {
        ParseValueRoundTrip(vs[i], rest);
      }
    }
    ListRoundTrip(ParseValue, ValueBytes, vs, rest);
  }

  /** Decoding an encoded row gives the row back. */
  lemma RowRoundTrip(vs: seq<Value>)
    requires Encodable(vs)
    ensures ParseRow(RowBytes(vs)) == Some(vs)
  {
    hide ParseValue, ValueBytes;
    PowersOf256();
    var tail := U16Bytes(|vs|) + ValuesBytes(vs);
    TakeBytesRoundTrip(ROW_MAGIC, U16Bytes(ROW_VERSION) + tail);
    TakeIntRoundTrip(ROW_VERSION, 2, tail);
    TakeIntRoundTrip(|vs|, 2, ValuesBytes(vs));
    ParseValuesRoundTrip(vs, []);
    assert ValuesBytes(vs) + [] == ValuesBytes(vs);
  }

  lemma ParseValueExact(b: Bytes)
    requires ParseValue(b).Some?
    ensures var p := ParseValue(b).value; b == ValueBytes(p.value) + p.rest && ValueFits(p.value)
  {
    hide Utf8;
    PowersOf256();
    assert b == [b[0]] + b[1..];
    if b[0] == TAG_INTEGER || b[0] == TAG_DOUBLE {
      TakeIntExact(b[1..], 8);
    } else if b[0] == TAG_TEXT {
      TakeIntExact(b[1..], 4);
    }
  }

  lemma ParseValuesExact(b: Bytes, n: nat)
    requires ParseValues(b, n).Some?
    ensures var p := ParseValues(b, n).value; |p.value| == n && b == ValuesBytes(p.value) + p.rest
  {
    forall b | ParseValue(b).Some?
      ensures b == ValueBytes(ParseValue(b).value.value) + ParseValue(b).value.rest
    {
      ParseValueExact(b);
    }
    ListExact(ParseValue, ValueBytes, b, n);
  }

  lemma {:induction false} ParseValuesFit(b: Bytes, n: nat)
    requires ParseValues(b, n).Some?
    ensures AllFit(ParseValues(b, n).value.value)
    decreases n
  {
    if n > 0 {
      ParseValueExact(b);
      ParseValuesFit(ParseValue(b).value.rest, n - 1);
    }
  }

  /** Bytes that decode are the encoding of what they decode to. */
  lemma RowExact(b: Bytes)
    requires ParseRow(b).Some?
    ensures Encodable(ParseRow(b).value) && RowBytes(ParseRow(b).value) == b
  {
    hide ParseValue, ValueBytes;
    PowersOf256();
    var magic := TakeBytes(b, 4).value;
    var version := TakeInt(magic.rest, 2).value;
    var n := TakeInt(version.rest, 2).value;
    TakeIntExact(magic.rest, 2);
    TakeIntExact(version.rest, 2);
    ParseValuesExact(n.rest, n.value);
    ParseValuesFit(n.rest, n.value);
    var vs := ParseRow(b).value;
    assert ValuesBytes(vs) + [] == ValuesBytes(vs);
  }

  /** A row encodes exactly when its bytes would decode to it. */
  lemma EncodesWhatDecodes(vs: seq<Value>)
    ensures Encodable(vs) <==> ParseRow(RowBytes(vs)) == Some(vs)
  {
    hide ParseRow, RowBytes, ValueFits;
    if Encodable(vs) {
      RowRoundTrip(vs);
    } else if ParseRow(RowBytes(vs)).Some? {
      RowExact(RowBytes(vs));
    }
  }
}
