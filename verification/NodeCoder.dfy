/** Node records written to and read from bytes, and put on pages. */
module NodeCoder {
  import opened Core
  import opened Encoding
  import opened Cursors
  import opened IndexModel
  import opened BTreeModel
  import opened NodeCodec

  // Writing

  method EncodeKey(bytes: Bytes, key: IndexKey) returns (r: Result<Bytes>)
    ensures r == if KeyFits(key) then Ok(bytes + KeyBytes(key)) else Err(User)
  {
    match key
    case Integer(value) =>
      r := Ok(bytes + [KEY_INTEGER] + U64Bytes(I64Bits(value)));
      assert bytes + [KEY_INTEGER] + U64Bytes(I64Bits(value)) == bytes + KeyBytes(key);
    case Text(text) =>
      if |text| > U16_MAX {
        return Err(User);
      }
      r := Ok(bytes + [KEY_TEXT] + U16Bytes(|text|) + text);
      assert bytes + [KEY_TEXT] + U16Bytes(|text|) + text == bytes + KeyBytes(key);
  }

  method EncodeEntries(bytes0: Bytes, entries: seq<IndexEntry>) returns (r: Result<Bytes>)
    ensures r == if forall i :: 0 <= i < |entries| ==> KeyFits(entries[i].key)
                 then Ok(bytes0 + ListBytes(EntryBytes, entries)) else Err(User)
  {
    hide KeyBytes, LittleEndian;
    var bytes := bytes0;
    assert bytes0 + ListBytes(EntryBytes, []) == bytes0;
    for i := 0 to |entries|
      invariant forall j :: 0 <= j < i ==> KeyFits(entries[j].key)
      invariant bytes == bytes0 + ListBytes(EntryBytes, entries[..i])
    {
      var keyed := EncodeKey(bytes, entries[i].key);
      if keyed.Err? {
        return keyed;
      }
      ListBytesStep(EntryBytes, entries, i, bytes0);
      ghost var before := bytes;
      bytes := keyed.value + U64Bytes(entries[i].rowId.pageId) + U16Bytes(entries[i].rowId.slotId);
      assert bytes == before + EntryBytes(entries[i]);
    }
    assert entries[..|entries|] == entries;
    r := Ok(bytes);
  }

  method EncodeLeaf(bytes0: Bytes, next: Option<PageId>, entries: seq<IndexEntry>) returns (r: Result<Bytes>)
    ensures r == if Encodable(Leaf(next, entries)) then Ok(bytes0 + BodyBytes(Leaf(next, entries))) else Err(User)
  {
    hide EntryBytes, LittleEndian, ListBytes;
    var bytes := bytes0 + [NODE_LEAF];
    match next {
      case Some(page) => bytes := bytes + [1] + U64Bytes(page);
      case None => bytes := bytes + [0] + U64Bytes(0);
    }
    assert bytes == bytes0 + ([NODE_LEAF] + NextBytes(next));
    if |entries| > U16_MAX {
      return Err(User);
    }
    r := EncodeEntries(bytes + U16Bytes(|entries|), entries);
    FourParts(bytes0, [NODE_LEAF], NextBytes(next), U16Bytes(|entries|), ListBytes(EntryBytes, entries));
  }

  lemma FourParts(a: Bytes, b: Bytes, c: Bytes, d: Bytes, e: Bytes)
    ensures a + (b + c) + d + e == a + (b + (c + (d + e)))
  {
  }

  method EncodeKeys(bytes0: Bytes, keys: seq<IndexKey>) returns (r: Result<Bytes>)
    ensures r == if forall i :: 0 <= i < |keys| ==> KeyFits(keys[i]) then Ok(bytes0 + ListBytes(KeyBytes, keys)) else Err(User)
  {
    hide KeyBytes;
    var bytes := bytes0;
    assert bytes0 + ListBytes(KeyBytes, []) == bytes0;
    for i := 0 to |keys|
      invariant forall j :: 0 <= j < i ==> KeyFits(keys[j])
      invariant bytes == bytes0 + ListBytes(KeyBytes, keys[..i])
    {
      var keyed := EncodeKey(bytes, keys[i]);
      if keyed.Err? {
        return keyed;
      }
      ListBytesStep(KeyBytes, keys, i, bytes0);
      bytes := keyed.value;
    }
    assert keys[..|keys|] == keys;
    r := Ok(bytes);
  }

  method EncodeInternal(bytes0: Bytes, keys: seq<IndexKey>, children: seq<PageId>) returns (r: Result<Bytes>)
    ensures r == if |children| != |keys| + 1 then Err(Corruption)
                 else if Encodable(Internal(keys, children)) then Ok(bytes0 + BodyBytes(Internal(keys, children)))
                 else Err(User)
  {
    hide KeyBytes, LittleEndian, ListBytes, PageIdBytes;
    if |children| != |keys| + 1 {
      return Err(Corruption);
    }
    if |keys| > U16_MAX {
      return Err(User);
    }
    var bytes := bytes0 + ([NODE_INTERNAL] + U16Bytes(|keys|));
    var keyed := EncodeKeys(bytes, keys);
    if keyed.Err? {
      return keyed;
    }
    if |children| > U16_MAX {
      return Err(User);
    }
    var whole := EncodePageIds(keyed.value + U16Bytes(|children|), children);
    FiveParts(bytes0, [NODE_INTERNAL], U16Bytes(|keys|), ListBytes(KeyBytes, keys), U16Bytes(|children|), ListBytes(PageIdBytes, children));
    r := Ok(whole);
  }

  lemma FiveParts(a: Bytes, b: Bytes, c: Bytes, d: Bytes, e: Bytes, f: Bytes)
    ensures a + (b + c) + d + e + f == a + (b + (c + (d + (e + f))))
  {
  }

  method EncodeNode(node: Node) returns (r: Result<Bytes>)
    ensures r == if node.Internal? && |node.children| != |node.keys| + 1 then Err(Corruption)
                 else if Encodable(node) then Ok(NodeBytes(node)) else Err(User)
  {
    hide BodyBytes, LittleEndian;
    var bytes := NODE_MAGIC + U16Bytes(NODE_VERSION);
    match node {
      case Leaf(next, entries) => r := EncodeLeaf(bytes, next, entries);
      case Internal(keys, children) => r := EncodeInternal(bytes, keys, children);
    }
    assert NODE_MAGIC + U16Bytes(NODE_VERSION) + BodyBytes(node) == NodeBytes(node);
  }

  // Reading

  method DecodeKey(cursor: DecodeCursor) returns (r: Result<IndexKey>)
    requires cursor.Valid()
    modifies cursor
    ensures cursor.Valid() && Reading(ParseKey(old(cursor.Rest())), r, cursor.Rest())
  {
    var tag :- cursor.ReadU8();
    if tag == KEY_INTEGER {
      var bits :- cursor.ReadU64();
      r := Ok(IndexKey.Integer(I64FromBits(bits)));
    } else if tag == KEY_TEXT {
      var text :- cursor.ReadString();
      r := Ok(IndexKey.Text(text));
    } else {
      r := Err(Corruption);
    }
  }

  method DecodeEntry(cursor: DecodeCursor) returns (r: Result<IndexEntry>)
    requires cursor.Valid()
    modifies cursor
    ensures cursor.Valid() && Reading(ParseEntry(old(cursor.Rest())), r, cursor.Rest())
  {
    hide ParseKey;
    PowersOf256();
    var key :- DecodeKey(cursor);
    var pageId :- cursor.ReadU64();
    var slotId :- cursor.ReadInt(2);
    r := Ok(IndexEntry(key, RowId(pageId, slotId)));
  }

  method DecodeEntries(cursor: DecodeCursor, count: nat) returns (r: Result<seq<IndexEntry>>)
    requires cursor.Valid()
    modifies cursor
    ensures cursor.Valid() && Reading(ParseList(ParseEntry, old(cursor.Rest()), count), r, cursor.Rest())
  {
    hide ParseEntry;
    ghost var start := cursor.Rest();
    var entries: seq<IndexEntry> := [];
    ContinuedFrom(ParseEntry, start, count);
    for i := 0 to count
      invariant cursor.Valid()
      invariant ParseList(ParseEntry, start, count) == Continued(ParseEntry, entries, cursor.Rest(), count - i)
    {
      ContinuedStep(ParseEntry, entries, cursor.Rest(), count - i);
      var entry :- DecodeEntry(cursor);
      entries := entries + [entry];
    }
    assert entries + [] == entries;
    r := Ok(entries);
  }

  method DecodeKeys(cursor: DecodeCursor, count: nat) returns (r: Result<seq<IndexKey>>)
    requires cursor.Valid()
    modifies cursor
    ensures cursor.Valid() && Reading(ParseList(ParseKey, old(cursor.Rest()), count), r, cursor.Rest())
  {
    hide ParseKey;
    ghost var start := cursor.Rest();
    var keys: seq<IndexKey> := [];
    ContinuedFrom(ParseKey, start, count);
    for i := 0 to count
      invariant cursor.Valid()
      invariant ParseList(ParseKey, start, count) == Continued(ParseKey, keys, cursor.Rest(), count - i)
    {
      ContinuedStep(ParseKey, keys, cursor.Rest(), count - i);
      var key :- DecodeKey(cursor);
      keys := keys + [key];
    }
    assert keys + [] == keys;
    r := Ok(keys);
  }

  method DecodeLeaf(cursor: DecodeCursor) returns (r: Result<Node>)
    requires cursor.Valid()
    modifies cursor
    ensures cursor.Valid() && Reading(ParseLeaf(old(cursor.Rest())), r, cursor.Rest())
  {
    hide ParseEntry;
    var flag :- cursor.ReadU8();
    var nextPageId :- cursor.ReadU64();
    if flag > 1 {
      return Err(Corruption);
    }
    var count :- cursor.ReadInt(2);
    var entries :- DecodeEntries(cursor, count);
    r := Ok(Leaf(if flag == 1 then Some(nextPageId) else None, entries));
  }

  method DecodeInternal(cursor: DecodeCursor) returns (r: Result<Node>)
    requires cursor.Valid()
    modifies cursor
    ensures cursor.Valid() && Reading(ParseInternal(old(cursor.Rest())), r, cursor.Rest())
  {
    hide ParseKey, ParseU64;
    var keyCount :- cursor.ReadInt(2);
    var keys :- DecodeKeys(cursor, keyCount);
    var childCount :- cursor.ReadInt(2);
    var children :- DecodePageIds(cursor, childCount);
    r := if |children| != |keys| + 1 then Err(Corruption) else Ok(Internal(keys, children));
  }

  method DecodeBody(cursor: DecodeCursor) returns (r: Result<Node>)
    requires cursor.Valid()
    modifies cursor
    ensures cursor.Valid() && Reading(ParseBody(old(cursor.Rest())), r, cursor.Rest())
  {
    hide ParseLeaf, ParseInternal;
    var kind :- cursor.ReadU8();
    if kind == NODE_LEAF {
      r := DecodeLeaf(cursor);
    } else if kind == NODE_INTERNAL {
      r := DecodeInternal(cursor);
    } else {
      r := Err(Corruption);
    }
  }

  method DecodeHeader(cursor: DecodeCursor) returns (r: Result<()>)
    requires cursor.Valid()
    modifies cursor
    ensures cursor.Valid() && Reading(ParseHeader(old(cursor.Rest())), r, cursor.Rest())
  {
    var magic :- cursor.ReadBytes(4);
    if magic != NODE_MAGIC {
      return Err(Corruption);
    }
    var version :- cursor.ReadInt(2);
    r := if version != NODE_VERSION then Err(Corruption) else Ok(());
  }

  /** Header, body, and nothing after. */
  method DecodeWhole(cursor: DecodeCursor) returns (r: Result<Node>)
    requires cursor.Valid()
    modifies cursor
    ensures r == match ParseNode(old(cursor.Rest())) case None => Err(Corruption) case Some(x) => Ok(x)
  {
    hide ParseHeader, ParseBody, Utf8;
    var header := DecodeHeader(cursor);
    match header
    case Err(error) =>
      r := Err(error);
    case Ok(_) =>
      r := DecodeBody(cursor);
      if r.Ok? {
        var finished := cursor.IsFinished();
        r := if finished then r else Err(Corruption);
      }
  }

  method DecodeNode(bytes: Bytes) returns (r: Result<Node>)
    ensures r == match ParseNode(bytes) case None => Err(Corruption) case Some(x) => Ok(x)
  {
    hide ParseNode;
    var cursor := new DecodeCursor(bytes);
    r := DecodeWhole(cursor);
  }
}
