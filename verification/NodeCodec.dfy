/** The bytes of a B+Tree node record. */
module NodeCodec {
  import opened Core
  import opened Encoding
  import opened IndexModel
  import opened BTreeModel

  const NODE_MAGIC: Bytes := [0x52, 0x44, 0x42, 0x49] // "RDBI"
  const NODE_VERSION: u16 := 1
  const NODE_LEAF: u8 := 1
  const NODE_INTERNAL: u8 := 2
  const KEY_INTEGER: u8 := 1
  const KEY_TEXT: u8 := 2

  // Encoding

  function KeyBytes(key: IndexKey): Bytes {
    match key
    case Integer(value) => [KEY_INTEGER] + U64Bytes(I64Bits(value))
    case Text(text) => [KEY_TEXT] + TextBytes(text)
  }

  function EntryBytes(e: IndexEntry): Bytes {
    KeyBytes(e.key) + (U64Bytes(e.rowId.pageId) + U16Bytes(e.rowId.slotId))
  }

  function NextBytes(next: Option<PageId>): Bytes {
    match next
    case None => [0] + U64Bytes(0)
    case Some(page) => [1] + U64Bytes(page)
  }

  /** Everything after the magic and the version. */
  function BodyBytes(node: Node): Bytes {
    match node
    case Leaf(next, entries) =>
      [NODE_LEAF] + (NextBytes(next) + (U16Bytes(|entries|) + ListBytes(EntryBytes, entries)))
    case Internal(keys, children) =>
      [NODE_INTERNAL] + (U16Bytes(|keys|) + (ListBytes(KeyBytes, keys)
        + (U16Bytes(|children|) + ListBytes(PageIdBytes, children))))
  }

  function NodeBytes(node: Node): Bytes {
    NODE_MAGIC + (U16Bytes(NODE_VERSION) + BodyBytes(node))
  }

  predicate KeyFits(key: IndexKey) {
    key.Text? ==> |key.text| <= U16_MAX
  }

  /** Lengths fit the fields that store them, and an internal node has one child more than keys. */
  predicate Encodable(node: Node) {
    match node
    case Leaf(_, entries) =>
      |entries| <= U16_MAX && forall i :: 0 <= i < |entries| ==> KeyFits(entries[i].key)
    case Internal(keys, children) =>
      && |children| == |keys| + 1 && |children| <= U16_MAX
      && forall i :: 0 <= i < |keys| ==> KeyFits(keys[i])
  }

  // Closed-form length

  lemma KeyBytesLength(key: IndexKey)
    ensures |KeyBytes(key)| == KeyLen(key)
  {
  }

  lemma {:induction false} EntriesLength(entries: seq<IndexEntry>)
    ensures |ListBytes(EntryBytes, entries)| == EntriesLen(entries)
  {
    if entries != [] {
      EntriesLength(entries[1..]);
      KeyBytesLength(entries[0].key);
    }
  }

  lemma {:induction false} KeysLength(keys: seq<IndexKey>)
    ensures |ListBytes(KeyBytes, keys)| == KeysLen(keys)
  {
    if keys != [] {
      KeysLength(keys[1..]);
      KeyBytesLength(keys[0]);
    }
  }

  lemma {:induction false} ChildrenLength(children: seq<PageId>)
    ensures |ListBytes(PageIdBytes, children)| == 8 * |children|
  {
    if children != [] {
      ChildrenLength(children[1..]);
    }
  }

  /** The size the tree layer reckons with is the size of the bytes. */
  lemma NodeLength(node: Node)
    ensures |NodeBytes(node)| == NodeLen(node)
  {
    match node
    case Leaf(_, entries) => EntriesLength(entries);
    case Internal(keys, children) =>
      KeysLength(keys);
      ChildrenLength(children);
  }

  /** A node that fits a page and has the right shape has no length too large for its field. */
  lemma FittingIsEncodable(node: Node)
    requires Fits(node) && (node.Internal? ==> |node.children| == |node.keys| + 1)
    ensures Encodable(node)
  {
    match node
    case Leaf(_, entries) => FittingEntries(entries);
    case Internal(keys, _) => FittingKeys(keys);
  }

  lemma {:induction false} FittingEntries(entries: seq<IndexEntry>)
    ensures |entries| <= EntriesLen(entries)
    ensures forall i :: 0 <= i < |entries| ==> KeyLen(entries[i].key) <= EntriesLen(entries)
  {
    if entries != [] {
      FittingEntries(entries[1..]);
    }
  }

  lemma {:induction false} FittingKeys(keys: seq<IndexKey>)
    ensures |keys| <= KeysLen(keys)
    ensures forall i :: 0 <= i < |keys| ==> KeyLen(keys[i]) <= KeysLen(keys)
  {
    if keys != [] {
      FittingKeys(keys[1..]);
    }
  }

  // Parsing

  function ParseKey(b: Bytes): Option<Parsed<IndexKey>> {
    if b == [] then None
    else if b[0] == KEY_INTEGER then
      var p :- ParseU64(b[1..]);
      Some(Parsed(IndexKey.Integer(I64FromBits(p.value)), p.rest))
    else if b[0] == KEY_TEXT then
      var p :- ParseText(b[1..]);
      Some(Parsed(IndexKey.Text(p.value), p.rest))
    else None
  }

  function ParseEntry(b: Bytes): Option<Parsed<IndexEntry>> {
    var key :- ParseKey(b);
    var page :- ParseU64(key.rest);
    var slot :- TakeInt(page.rest, 2);
    PowersOf256();
    Some(Parsed(IndexEntry(key.value, RowId(page.value, slot.value)), slot.rest))
  }

  /** The flag decides; the id beside a zero flag is ignored. */
  function ParseNext(b: Bytes): Option<Parsed<Option<PageId>>> {
    if b == [] then None
    else
      var page :- ParseU64(b[1..]);
      if b[0] == 0 then Some(Parsed(None, page.rest))
      else if b[0] == 1 then Some(Parsed(Some(page.value), page.rest))
      else None
  }

  function ParseLeaf(b: Bytes): Option<Parsed<Node>> {
    var next :- ParseNext(b);
    var n :- TakeInt(next.rest, 2);
    var entries :- ParseList(ParseEntry, n.rest, n.value);
    Some(Parsed(Leaf(next.value, entries.value), entries.rest))
  }

  function ParseInternal(b: Bytes): Option<Parsed<Node>> {
    var n :- TakeInt(b, 2);
    var keys :- ParseList(ParseKey, n.rest, n.value);
    var m :- TakeInt(keys.rest, 2);
    var children :- ParseList(ParseU64, m.rest, m.value);
    if |children.value| == |keys.value| + 1
    then Some(Parsed(Internal(keys.value, children.value), children.rest))
    else None
  }

  function ParseBody(b: Bytes): Option<Parsed<Node>> {
    if b == [] then None
    else if b[0] == NODE_LEAF then ParseLeaf(b[1..])
    else if b[0] == NODE_INTERNAL then ParseInternal(b[1..])
    else None
  }

  function ParseHeader(b: Bytes): Option<Parsed<()>> {
    var magic :- TakeBytes(b, 4);
    var version :- TakeInt(magic.rest, 2);
    if magic.value != NODE_MAGIC || version.value != NODE_VERSION then None else Some(Parsed((), version.rest))
  }

  function ParseNode(b: Bytes): Option<Node> {
    var header :- ParseHeader(b);
    var node :- ParseBody(header.rest);
    if node.rest == [] then Some(node.value) else None
  }

  // Round trip

  lemma ParseKeyRoundTrip(key: IndexKey, rest: Bytes)
    requires KeyFits(key)
    ensures ParseKey(KeyBytes(key) + rest) == Some(Parsed(key, rest))
  {
    hide Utf8;
    var b := KeyBytes(key) + rest;
    match key
    case Integer(value) =>
      assert b[1..] == U64Bytes(I64Bits(value)) + rest;
      ParseU64RoundTrip(I64Bits(value), rest);
    case Text(text) =>
      assert b[1..] == TextBytes(text) + rest;
      ParseTextRoundTrip(text, rest);
  }

  lemma ParseEntryRoundTrip(e: IndexEntry, rest: Bytes)
    requires KeyFits(e.key)
    ensures ParseEntry(EntryBytes(e) + rest) == Some(Parsed(e, rest))
  {
    hide ParseKey, KeyBytes;
    PowersOf256();
    var tail := U16Bytes(e.rowId.slotId) + rest;
    assert EntryBytes(e) + rest == KeyBytes(e.key) + (U64Bytes(e.rowId.pageId) + tail);
    ParseKeyRoundTrip(e.key, U64Bytes(e.rowId.pageId) + tail);
    ParseU64RoundTrip(e.rowId.pageId, tail);
    TakeIntRoundTrip(e.rowId.slotId, 2, rest);
  }

  lemma ParseEntriesRoundTrip(es: seq<IndexEntry>, rest: Bytes)
    requires forall i :: 0 <= i < |es| ==> KeyFits(es[i].key)
    ensures ParseList(ParseEntry, ListBytes(EntryBytes, es) + rest, |es|) == Some(Parsed(es, rest))
  {
    forall i | 0 <= i < |es| ensures Reads(ParseEntry, EntryBytes, es[i]) {
      forall rest: Bytes ensures ParseEntry(EntryBytes(es[i]) + rest) == Some(Parsed(es[i], rest)) {
        ParseEntryRoundTrip(es[i], rest);
      }
    }
    ListRoundTrip(ParseEntry, EntryBytes, es, rest);
  }

  lemma ParseKeysRoundTrip(keys: seq<IndexKey>, rest: Bytes)
    requires forall i :: 0 <= i < |keys| ==> KeyFits(keys[i])
    ensures ParseList(ParseKey, ListBytes(KeyBytes, keys) + rest, |keys|) == Some(Parsed(keys, rest))
  {
    forall i | 0 <= i < |keys| ensures Reads(ParseKey, KeyBytes, keys[i]) {
      forall rest: Bytes ensures ParseKey(KeyBytes(keys[i]) + rest) == Some(Parsed(keys[i], rest)) {
        ParseKeyRoundTrip(keys[i], rest);
      }
    }
    ListRoundTrip(ParseKey, KeyBytes, keys, rest);
  }

  lemma ParseNextRoundTrip(next: Option<PageId>, rest: Bytes)
    ensures ParseNext(NextBytes(next) + rest) == Some(Parsed(next, rest))
  {
    var page := if next.Some? then next.value else 0;
    assert (NextBytes(next) + rest)[1..] == U64Bytes(page) + rest;
    ParseU64RoundTrip(page, rest);
  }

  lemma ParseLeafRoundTrip(next: Option<PageId>, entries: seq<IndexEntry>)
    requires |entries| <= U16_MAX && forall i :: 0 <= i < |entries| ==> KeyFits(entries[i].key)
    ensures ParseLeaf(NextBytes(next) + (U16Bytes(|entries|) + ListBytes(EntryBytes, entries))) ==
            Some(Parsed(Leaf(next, entries), []))
  {
    hide ParseNext, NextBytes, ParseEntry, EntryBytes;
    PowersOf256();
    var tail := ListBytes(EntryBytes, entries);
    ParseNextRoundTrip(next, U16Bytes(|entries|) + tail);
    TakeIntRoundTrip(|entries|, 2, tail);
    ParseEntriesRoundTrip(entries, []);
    assert tail + [] == tail;
  }

  lemma ParseInternalRoundTrip(keys: seq<IndexKey>, children: seq<PageId>)
    requires |children| == |keys| + 1 <= U16_MAX && forall i :: 0 <= i < |keys| ==> KeyFits(keys[i])
    ensures ParseInternal(U16Bytes(|keys|) + (ListBytes(KeyBytes, keys)
              + (U16Bytes(|children|) + ListBytes(PageIdBytes, children)))) == Some(Parsed(Internal(keys, children), []))
  {
    hide ParseKey, KeyBytes, ParseU64, PageIdBytes;
    PowersOf256();
    var tail := ListBytes(PageIdBytes, children);
    var middle := U16Bytes(|children|) + tail;
    TakeIntRoundTrip(|keys|, 2, ListBytes(KeyBytes, keys) + middle);
    ParseKeysRoundTrip(keys, middle);
    TakeIntRoundTrip(|children|, 2, tail);
    ParsePageIdsRoundTrip(children, []);
    assert tail + [] == tail;
  }

  /** Decoding an encoded node gives it back. */
  lemma NodeRoundTrip(node: Node)
    requires Encodable(node)
    ensures ParseNode(NodeBytes(node)) == Some(node)
  {
    hide ParseLeaf, ParseInternal, NextBytes, EntryBytes, KeyBytes, PageIdBytes;
    PowersOf256();
    var body := BodyBytes(node);
    TakeBytesRoundTrip(NODE_MAGIC, U16Bytes(NODE_VERSION) + body);
    TakeIntRoundTrip(NODE_VERSION, 2, body);
    match node
    case Leaf(next, entries) =>
      ParseLeafRoundTrip(next, entries);
      assert body[1..] == NextBytes(next) + (U16Bytes(|entries|) + ListBytes(EntryBytes, entries));
    case Internal(keys, children) =>
      ParseInternalRoundTrip(keys, children);
      assert body[1..] == U16Bytes(|keys|) + (ListBytes(KeyBytes, keys)
        + (U16Bytes(|children|) + ListBytes(PageIdBytes, children)));
  }

  // Exactness: what decodes is what its node encodes to, a stray page id beside a zero flag excepted

  lemma ParseKeyExact(b: Bytes)
    requires ParseKey(b).Some?
    ensures var p := ParseKey(b).value; b == KeyBytes(p.value) + p.rest && KeyFits(p.value)
  {
    hide Utf8, TextBytes;
    assert b == [b[0]] + b[1..];
    if b[0] == KEY_INTEGER {
      TakeIntExact(b[1..], 8);
    } else {
      ParseTextExact(b[1..]);
    }
  }

  lemma ParseEntryExact(b: Bytes)
    requires ParseEntry(b).Some?
    ensures var p := ParseEntry(b).value; b == EntryBytes(p.value) + p.rest && KeyFits(p.value.key)
  {
    hide ParseKey, KeyBytes;
    PowersOf256();
    ParseKeyExact(b);
    var key := ParseKey(b).value;
    TakeIntExact(key.rest, 8);
    TakeIntExact(ParseU64(key.rest).value.rest, 2);
  }

  lemma {:induction false} ParseEntriesExact(b: Bytes, n: nat)
    requires ParseList(ParseEntry, b, n).Some?
    ensures var p := ParseList(ParseEntry, b, n).value;
      b == ListBytes(EntryBytes, p.value) + p.rest && forall i :: 0 <= i < n ==> KeyFits(p.value[i].key)
    decreases n
  {
    hide ParseEntry, EntryBytes, KeyFits;
    if n > 0 {
      ParseEntryExact(b);
      ParseEntriesExact(ParseEntry(b).value.rest, n - 1);
    }
  }

  lemma {:induction false} ParseKeysExact(b: Bytes, n: nat)
    requires ParseList(ParseKey, b, n).Some?
    ensures var p := ParseList(ParseKey, b, n).value;
      b == ListBytes(KeyBytes, p.value) + p.rest && forall i :: 0 <= i < n ==> KeyFits(p.value[i])
    decreases n
  {
    hide ParseKey, KeyBytes, KeyFits;
    if n > 0 {
      ParseKeyExact(b);
      ParseKeysExact(ParseKey(b).value.rest, n - 1);
    }
  }

  /** A zero flag with a page id beside it. */
  predicate StrayNext(b: Bytes) {
    |b| >= 9 && b[0] == 0 && b[1..9] != U64Bytes(0)
  }

  lemma ParseNextExact(b: Bytes)
    requires ParseNext(b).Some?
    ensures |b| >= 9 && ParseNext(b).value.rest == b[9..]
    ensures NextBytes(ParseNext(b).value.value) == b[..9] <==> !StrayNext(b)
  {
    TakeIntExact(b[1..], 8);
    assert b[1..][..8] == b[1..9] && b[..9] == [b[0]] + b[1..9];
  }

  lemma ParseLeafExact(b: Bytes)
    requires ParseLeaf(b).Some?
    ensures var p := ParseLeaf(b).value;
      Encodable(p.value) && (BodyBytes(p.value) + p.rest == [NODE_LEAF] + b <==> !StrayNext(b))
  {
    hide ParseNext, NextBytes, StrayNext, ParseEntry, EntryBytes;
    PowersOf256();
    var next := ParseNext(b).value;
    ParseNextExact(b);
    var n := TakeInt(next.rest, 2).value;
    TakeIntExact(next.rest, 2);
    ParseEntriesExact(n.rest, n.value);
    var p := ParseLeaf(b).value;
    var tail := U16Bytes(n.value) + ListBytes(EntryBytes, p.value.entries);
    assert tail + p.rest == b[9..];
    assert BodyBytes(p.value) + p.rest == [NODE_LEAF] + (NextBytes(next.value) + b[9..]);
    assert b == b[..9] + b[9..];
    if BodyBytes(p.value) + p.rest == [NODE_LEAF] + b {
      assert ([NODE_LEAF] + (NextBytes(next.value) + b[9..]))[1..][..9] == NextBytes(next.value);
      assert ([NODE_LEAF] + b)[1..][..9] == b[..9];
    }
  }

  lemma ParseInternalExact(b: Bytes)
    requires ParseInternal(b).Some?
    ensures var p := ParseInternal(b).value;
      Encodable(p.value) && BodyBytes(p.value) + p.rest == [NODE_INTERNAL] + b
  {
    hide ParseKey, KeyBytes, ParseU64, PageIdBytes, LittleEndian, FromLittleEndian, ListBytes, ParseList;
    PowersOf256();
    var n := TakeInt(b, 2).value;
    TakeIntExact(b, 2);
    ParseKeysExact(n.rest, n.value);
    var keys := ParseList(ParseKey, n.rest, n.value).value;
    var m := TakeInt(keys.rest, 2).value;
    TakeIntExact(keys.rest, 2);
    ParsePageIdsExact(m.rest, m.value);
    var children := ParseList(ParseU64, m.rest, m.value).value;
    FiveParts([NODE_INTERNAL], U16Bytes(n.value), ListBytes(KeyBytes, keys.value), U16Bytes(m.value),
              ListBytes(PageIdBytes, children.value), children.rest);
  }

  lemma FiveParts(a: Bytes, b: Bytes, c: Bytes, d: Bytes, e: Bytes, rest: Bytes)
    ensures a + (b + (c + (d + e))) + rest == a + (b + (c + (d + (e + rest))))
  {
  }

  /** Bytes that decode are what their node encodes to, unless a leaf's zero flag has a page id beside it. */
  lemma NodeExact(b: Bytes)
    requires ParseNode(b).Some?
    ensures Encodable(ParseNode(b).value)
    ensures NodeBytes(ParseNode(b).value) == b <==> !(b[6] == NODE_LEAF && StrayNext(b[7..]))
  {
    hide ParseLeaf, ParseInternal, BodyBytes, Encodable, StrayNext;
    PowersOf256();
    TakeIntExact(b[4..], 2);
    var node := ParseNode(b).value;
    assert b[4..][2..] == b[6..] && b[6..][1..] == b[7..];
    assert b[6..] == [b[6]] + b[7..];
    if b[6] == NODE_LEAF {
      ParseLeafExact(b[7..]);
    } else {
      ParseInternalExact(b[7..]);
    }
    assert BodyBytes(node) + [] == BodyBytes(node);
    var header := NODE_MAGIC + U16Bytes(NODE_VERSION);
    assert b == header + b[6..] && NodeBytes(node) == header + BodyBytes(node);
    assert (header + b[6..])[6..] == b[6..] && (header + BodyBytes(node))[6..] == BodyBytes(node);
  }

  /** The record of a last leaf with `page` beside its zero flag. */
  function LastLeafBytes(page: PageId, entries: seq<IndexEntry>): Bytes {
    NODE_MAGIC + (U16Bytes(NODE_VERSION)
      + ([NODE_LEAF] + ([0] + U64Bytes(page) + (U16Bytes(|entries|) + ListBytes(EntryBytes, entries)))))
  }

  lemma LastLeafParses(page: PageId, entries: seq<IndexEntry>)
    requires Encodable(Leaf(None, entries))
    ensures ParseLeaf([0] + U64Bytes(page) + (U16Bytes(|entries|) + ListBytes(EntryBytes, entries))) ==
            Some(Parsed(Leaf(None, entries), []))
  {
    hide ParseEntry, EntryBytes, LittleEndian, FromLittleEndian;
    PowersOf256();
    var list := ListBytes(EntryBytes, entries);
    var tail := U16Bytes(|entries|) + list;
    var leaf := [0] + U64Bytes(page) + tail;
    assert leaf[1..] == U64Bytes(page) + tail;
    ParseU64RoundTrip(page, tail);
    assert ParseNext(leaf) == Some(Parsed(None, tail));
    TakeIntRoundTrip(|entries|, 2, list);
    ParseEntriesRoundTrip(entries, []);
    assert list + [] == list;
  }

  lemma LastLeafId(page: PageId, entries: seq<IndexEntry>)
    ensures LastLeafBytes(page, entries)[8..16] == U64Bytes(page)
    ensures LastLeafBytes(0, entries) == NodeBytes(Leaf(None, entries))
  {
    hide LittleEndian, ListBytes;
  }

  /** Whatever that id is, the leaf decodes the same; it is what encoding writes for zero only. */
  lemma LastLeafDecodes(page: PageId, entries: seq<IndexEntry>)
    requires Encodable(Leaf(None, entries))
    ensures ParseNode(LastLeafBytes(page, entries)) == Some(Leaf(None, entries))
    ensures LastLeafBytes(page, entries) == NodeBytes(Leaf(None, entries)) <==> page == 0
  {
    hide LittleEndian, FromLittleEndian, ParseLeaf, ParseInternal, ListBytes, Encodable, NodeBytes;
    PowersOf256();
    var leaf := [0] + U64Bytes(page) + (U16Bytes(|entries|) + ListBytes(EntryBytes, entries));
    var body := [NODE_LEAF] + leaf;
    TakeBytesRoundTrip(NODE_MAGIC, U16Bytes(NODE_VERSION) + body);
    TakeIntRoundTrip(NODE_VERSION, 2, body);
    assert body[1..] == leaf;
    LastLeafParses(page, entries);
    LittleEndianRoundTrip(page, 8);
    LittleEndianRoundTrip(0, 8);
    LastLeafId(page, entries);
    LastLeafId(0, entries);
  }

  /** A node encodes exactly when its bytes would decode to it. */
  lemma EncodesWhatDecodes(node: Node)
    ensures Encodable(node) <==> ParseNode(NodeBytes(node)) == Some(node)
  {
    hide ParseNode, NodeBytes, KeyFits;
    if Encodable(node) {
      NodeRoundTrip(node);
    } else if ParseNode(NodeBytes(node)).Some? {
      NodeExact(NodeBytes(node));
    }
  }
}
