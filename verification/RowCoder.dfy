/** Heap rows written to and read from bytes. */
module RowCoder {
  import opened Core
  import opened Encoding
  import opened Cursors
  import opened RowCodec

  method EncodeValue(bytes: Bytes, v: Value) returns (r: Result<Bytes>)
    ensures r == if ValueFits(v) then Ok(bytes + ValueBytes(v)) else Err(User)
  {
    hide LittleEndian;
    match v
    case Null =>
      r := Ok(bytes + [TAG_NULL]);
    case Integer(value) =>
      assert bytes + [TAG_INTEGER] + U64Bytes(I64Bits(value)) == bytes + ValueBytes(v);
      r := Ok(bytes + [TAG_INTEGER] + U64Bytes(I64Bits(value)));
    case Text(text) =>
      if |text| >= 0x1_0000_0000 {
        return Err(User);
      }
      assert bytes + [TAG_TEXT] + U32Bytes(|text|) + text == bytes + ValueBytes(v);
      r := Ok(bytes + [TAG_TEXT] + U32Bytes(|text|) + text);
    case Double(bits) =>
      assert bytes + [TAG_DOUBLE] + U64Bytes(bits) == bytes + ValueBytes(v);
      r := Ok(bytes + [TAG_DOUBLE] + U64Bytes(bits));
  }

  method EncodeRow(values: seq<Value>) returns (r: Result<Bytes>)
    ensures r == if Encodable(values) then Ok(RowBytes(values)) else Err(User)
  {
    hide ValueBytes, LittleEndian, ValueFits;
    if |values| > U16_MAX {
      return Err(User);
    }
    var bytes := ROW_MAGIC + U16Bytes(ROW_VERSION) + U16Bytes(|values|);
    ghost var head := bytes;
    assert head + ListBytes(ValueBytes, []) == head;
    for i := 0 to |values|
      invariant forall j :: 0 <= j < i ==> ValueFits(values[j])
      invariant bytes == head + ListBytes(ValueBytes, values[..i])
    {
      var written := EncodeValue(bytes, values[i]);
      if written.Err? {
        return written;
      }
      ListBytesStep(ValueBytes, values, i, head);
      bytes := written.value;
    }
    assert values[..|values|] == values;
    assert head + ValuesBytes(values) == RowBytes(values);
    r := Ok(bytes);
  }

  method DecodeValue(cursor: DecodeCursor) returns (r: Result<Value>)
    requires cursor.Valid()
    modifies cursor
    ensures cursor.Valid() && Reading(ParseValue(old(cursor.Rest())), r, cursor.Rest())
  {
    hide Utf8, FromLittleEndian;
    PowersOf256();
    var tag :- cursor.ReadU8();
    if tag == TAG_NULL {
      r := Ok(Null);
    } else if tag == TAG_INTEGER {
      var bits :- cursor.ReadInt(8);
      r := Ok(Integer(I64FromBits(bits)));
    } else if tag == TAG_TEXT {
      var len :- cursor.ReadInt(4);
      var b :- cursor.ReadBytes(len);
      r := if Utf8(b) then Ok(Value.Text(b)) else Err(Corruption);
    } else if tag == TAG_DOUBLE {
      var bits :- cursor.ReadInt(8);
      r := Ok(Double(bits));
    } else {
      r := Err(Corruption);
    }
  }

  method DecodeHeader(cursor: DecodeCursor) returns (r: Result<()>)
    requires cursor.Valid()
    modifies cursor
    ensures cursor.Valid() && Reading(ParseHeader(old(cursor.Rest())), r, cursor.Rest())
  {
    var magic :- cursor.ReadBytes(4);
    if magic != ROW_MAGIC {
      return Err(Corruption);
    }
    var version :- cursor.ReadInt(2);
    r := if version != ROW_VERSION then Err(Corruption) else Ok(());
  }

  method DecodeValues(cursor: DecodeCursor, count: nat) returns (r: Result<seq<Value>>)
    requires cursor.Valid()
    modifies cursor
    ensures cursor.Valid() && Reading(ParseValues(old(cursor.Rest()), count), r, cursor.Rest())
  {
    hide ParseValue;
    ghost var start := cursor.Rest();
    var values: seq<Value> := [];
    ContinuedFrom(ParseValue, start, count);
    for i := 0 to count
      invariant cursor.Valid()
      invariant ParseList(ParseValue, start, count) == Continued(ParseValue, values, cursor.Rest(), count - i)
    {
      ContinuedStep(ParseValue, values, cursor.Rest(), count - i);
      var value :- DecodeValue(cursor);
      values := values + [value];
    }
    assert values + [] == values;
    r := Ok(values);
  }

  method DecodeCounted(cursor: DecodeCursor) returns (r: Result<seq<Value>>)
    requires cursor.Valid()
    modifies cursor
    ensures cursor.Valid() && Reading(ParseCounted(old(cursor.Rest())), r, cursor.Rest())
  {
    hide ParseValues;
    var count :- cursor.ReadInt(2);
    r := DecodeValues(cursor, count);
  }

  /** Header, body, and nothing after. */
  method DecodeWhole(cursor: DecodeCursor) returns (r: Result<seq<Value>>)
    requires cursor.Valid()
    modifies cursor
    ensures r == match ParseRow(old(cursor.Rest())) case None => Err(Corruption) case Some(x) => Ok(x)
  {
    hide ParseHeader, ParseCounted, Utf8;
    var header := DecodeHeader(cursor);
    match header
    case Err(error) =>
      r := Err(error);
    case Ok(_) =>
      r := DecodeCounted(cursor);
      if r.Ok? {
        var finished := cursor.IsFinished();
        r := if finished then r else Err(Corruption);
      }
  }

  method DecodeRow(bytes: Bytes) returns (r: Result<seq<Value>>)
    ensures r == match ParseRow(bytes) case None => Err(Corruption) case Some(x) => Ok(x)
  {
    hide ParseRow;
    var cursor := new DecodeCursor(bytes);
    r := DecodeWhole(cursor);
  }
}
