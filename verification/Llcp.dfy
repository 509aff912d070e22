/**
 The LL/CP item chains of src/transport/RequestBuilder.js and src/transport/ReplyParser.js:
 a length word, a code point and data, one item after another behind header and template.
 */
module Llcp {
  import opened Bytes
  import opened DataStream
  import opened Outcome

  datatype Item = Item(cp: nat, data: seq<Byte>)
  {
    predicate Fits() {
      cp < TWO_16 && 6 + |data| < TWO_32
    }
  }

  predicate AllFit(items: seq<Item>) {
    forall i | 0 <= i < |items| :: items[i].Fits()
  }

  function ItemBytes(item: Item): (b: seq<Byte>)
    requires item.Fits()
  {
    U32(6 + |item.data|) + U16(item.cp) + item.data
  }

  function ItemsBytes(items: seq<Item>): (b: seq<Byte>)
    requires AllFit(items)
    ensures |b| == ItemsSize(items)
  {
    if items == [] then [] else ItemBytes(items[0]) + ItemsBytes(items[1..])
  }

  function ItemsSize(items: seq<Item>): (n: nat) {
    if items == [] then 0 else 6 + |items[0].data| + ItemsSize(items[1..])
  }

  /** An item starts with its own length and its code point. */
  lemma ItemNumbers(item: Item)
    requires item.Fits()
    ensures var b := ItemBytes(item);
            && |b| == 6 + |item.data| && BigEndian(b[..4]) == |b| && BigEndian(b[4..6]) == item.cp && b[6..] == item.data
  {
    hide BigEndian, U16, U32;
    var b, ll := ItemBytes(item), U32(6 + |item.data|);
    U32Denotes(6 + |item.data|);
    U16Denotes(item.cp);
    assert b[..4] == ll && b[4..6] == U16(item.cp) && b[6..] == item.data;
  }

  // ---- Reading a chain ----

  /** A well-formed item lies at `offset`: a length of at least six that stays within `end`. */
  predicate ItemAt(buf: seq<Byte>, offset: nat, end: nat)
    requires end <= |buf|
  {
    offset + 6 <= end && 6 <= GetU32(buf, offset) <= end - offset
  }

  function ReadItem(buf: seq<Byte>, offset: nat): (item: Item)
    requires offset + 6 <= |buf| && 6 <= GetU32(buf, offset) <= |buf| - offset
    ensures 6 + |item.data| == GetU32(buf, offset) && item.Fits()
  {
    Item(GetU16(buf, offset + 4), buf[offset + 6..offset + GetU32(buf, offset)])
  }

  lemma ReadItemBytes(buf: seq<Byte>, offset: nat)
    requires offset + 6 <= |buf| && 6 <= GetU32(buf, offset) <= |buf| - offset
    ensures var item := ReadItem(buf, offset);
            ItemBytes(item) == buf[offset..offset + 6 + |item.data|]
  {
    SameFields(buf, offset, ReadItem(buf, offset));
  }

  lemma SameFields(buf: seq<Byte>, offset: nat, item: Item)
    requires offset + 6 + |item.data| <= |buf| && item.Fits()
    requires GetU32(buf, offset) == 6 + |item.data| && GetU16(buf, offset + 4) == item.cp
    requires item.data == buf[offset + 6..offset + 6 + |item.data|]
    ensures ItemBytes(item) == buf[offset..offset + 6 + |item.data|]
  {
    U32Unique(buf, offset);
    U16Unique(buf, offset + 4);
  }

  lemma U32Unique(buf: seq<Byte>, at: nat)
    requires at + 4 <= |buf|
    ensures U32(GetU32(buf, at)) == buf[at..at + 4]
  {
    DigitsOfU32(buf[at], buf[at + 1], buf[at + 2], buf[at + 3]);
  }

  lemma DigitsOfU32(a: nat, b: nat, c: nat, d: nat)
    requires a < 256 && b < 256 && c < 256 && d < 256
    ensures var v := a * 0x100_0000 + b * TWO_16 + c * 256 + d;
            v / 0x100_0000 == a && v / TWO_16 % 256 == b && v / 256 % 256 == c && v % 256 == d
  {
    var v := a * 0x100_0000 + b * TWO_16 + c * 256 + d;
    assert v / TWO_16 == a * 256 + b;
    assert v / 256 == a * TWO_16 + b * 256 + c;
  }

  lemma U16Unique(buf: seq<Byte>, at: nat)
    requires at + 2 <= |buf|
    ensures U16(GetU16(buf, at)) == buf[at..at + 2]
  {}

  /** The items from `offset` on, up to the first place where none is well formed. */
  function Chain(buf: seq<Byte>, offset: nat, end: nat): (items: seq<Item>)
    requires end <= |buf|
    ensures AllFit(items)
    decreases end - offset
  {
    if ItemAt(buf, offset, end) then
      var item := ReadItem(buf, offset);
      [item] + Chain(buf, offset + 6 + |item.data|, end)
    else []
  }

  lemma Adjacent(buf: seq<Byte>, lo: nat, mid: nat, hi: nat)
    requires lo <= mid <= hi <= |buf|
    ensures buf[lo..mid] + buf[mid..hi] == buf[lo..hi]
  {}

  lemma ChainUnfolds(buf: seq<Byte>, offset: nat, end: nat)
    requires end <= |buf| && ItemAt(buf, offset, end)
    ensures var item := ReadItem(buf, offset);
            Chain(buf, offset, end) == [item] + Chain(buf, offset + 6 + |item.data|, end)
  {}

  lemma ItemsUnfold(item: Item, rest: seq<Item>)
    requires item.Fits() && AllFit(rest)
    ensures AllFit([item] + rest) && ItemsBytes([item] + rest) == ItemBytes(item) + ItemsBytes(rest)
    ensures ItemsSize([item] + rest) == 6 + |item.data| + ItemsSize(rest)
  {
    assert ([item] + rest)[1..] == rest;
  }

  /** `items` are consecutive, disjoint slices from `offset` on, and no further item follows them. */
  ghost predicate Slices(buf: seq<Byte>, offset: nat, end: nat, items: seq<Item>)
    requires end <= |buf|
  {
    && AllFit(items)
    && offset + ItemsSize(items) <= end
    && ItemsBytes(items) == buf[offset..offset + ItemsSize(items)]
    && !ItemAt(buf, offset + ItemsSize(items), end)
  }

  lemma SlicesCons(buf: seq<Byte>, offset: nat, end: nat, item: Item, rest: seq<Item>)
    requires end <= |buf| && item.Fits() && offset + 6 + |item.data| <= end
    requires ItemBytes(item) == buf[offset..offset + 6 + |item.data|]
    requires Slices(buf, offset + 6 + |item.data|, end, rest)
    ensures Slices(buf, offset, end, [item] + rest)
  {
    var next := offset + 6 + |item.data|;
    ItemsUnfold(item, rest);
    Adjacent(buf, offset, next, next + ItemsSize(rest));
  }

  /** The chain consists of such slices: their bytes side by side are a stretch of the buffer. */
  lemma {:induction false} ChainIsSlices(buf: seq<Byte>, offset: nat, end: nat)
    requires offset <= end <= |buf|
    ensures Slices(buf, offset, end, Chain(buf, offset, end))
    decreases end - offset
  {
    hide Slices, ItemBytes;
    if ItemAt(buf, offset, end) {
      var item := ReadItem(buf, offset);
      var next := offset + 6 + |item.data|;
      ChainUnfolds(buf, offset, end);
      ReadItemBytes(buf, offset);
      ChainIsSlices(buf, next, end);
      SlicesCons(buf, offset, end, item, Chain(buf, next, end));
    } else {
      SlicesNone(buf, offset, end);
    }
  }

  lemma SlicesNone(buf: seq<Byte>, offset: nat, end: nat)
    requires offset <= end <= |buf| && !ItemAt(buf, offset, end)
    ensures Slices(buf, offset, end, [])
  {}

  /** The encoded items stand in the buffer at `offset`, within the bound. */
  ghost predicate BytesAt(buf: seq<Byte>, offset: nat, end: nat, items: seq<Item>)
    requires end <= |buf|
  {
    AllFit(items) && offset + ItemsSize(items) <= end && buf[offset..offset + ItemsSize(items)] == ItemsBytes(items)
  }

  lemma SplitFront(buf: seq<Byte>, offset: nat, end: nat, item: Item, rest: seq<Item>)
    requires end <= |buf| && item.Fits() && AllFit(rest) && BytesAt(buf, offset, end, [item] + rest)
    ensures offset + 6 + |item.data| <= end && buf[offset..offset + 6 + |item.data|] == ItemBytes(item)
    ensures BytesAt(buf, offset + 6 + |item.data|, end, rest)
    ensures ItemsSize([item] + rest) == 6 + |item.data| + ItemsSize(rest)
  {
    hide ItemsBytes, ItemsSize;
    ItemsUnfold(item, rest);
    ItemLength(item);
    SplitSlice(buf, offset, ItemBytes(item), ItemsBytes(rest));
  }

  lemma ItemLength(item: Item)
    requires item.Fits()
    ensures |ItemBytes(item)| == 6 + |item.data|
  {}

  lemma SplitSlice(buf: seq<Byte>, offset: nat, a: seq<Byte>, b: seq<Byte>)
    requires offset + |a| + |b| <= |buf| && buf[offset..offset + |a| + |b|] == a + b
    ensures buf[offset..offset + |a|] == a && buf[offset + |a|..offset + |a| + |b|] == b
  {
    assert (a + b)[..|a|] == a && (a + b)[|a|..] == b;
    Within(buf, offset, offset + |a| + |b|, 0, |a|);
    Within(buf, offset, offset + |a| + |b|, |a|, |a| + |b|);
  }

  /**
   Any items whose bytes stand at `offset` within the bound are the first items of the chain read
   there: the chain is the longest well-formed prefix.
   */
  lemma {:induction false} ChainIsLongest(buf: seq<Byte>, offset: nat, end: nat, items: seq<Item>, tail: seq<Item>)
    requires end <= |buf| && BytesAt(buf, offset, end, items)
    requires tail == Chain(buf, offset + ItemsSize(items), end)
    ensures Chain(buf, offset, end) == items + tail
    decreases |items|
  {
    if items == [] {
      assert items + tail == tail;
    } else {
      hide BytesAt, Chain, ItemBytes;
      var item, rest := items[0], items[1..];
      assert items == [item] + rest;
      BytesFit(buf, offset, end, items);
      SplitFront(buf, offset, end, item, rest);
      ChainIsLongest(buf, offset + 6 + |item.data|, end, rest, tail);
      ChainCons(buf, offset, end, item, rest, tail);
    }
  }

  lemma BytesFit(buf: seq<Byte>, offset: nat, end: nat, items: seq<Item>)
    requires end <= |buf| && BytesAt(buf, offset, end, items)
    ensures AllFit(items) && offset + ItemsSize(items) <= end
  {}

  lemma ChainCons(buf: seq<Byte>, offset: nat, end: nat, item: Item, rest: seq<Item>, tail: seq<Item>)
    requires item.Fits() && offset + 6 + |item.data| <= end <= |buf|
    requires buf[offset..offset + 6 + |item.data|] == ItemBytes(item)
    requires Chain(buf, offset + 6 + |item.data|, end) == rest + tail
    ensures Chain(buf, offset, end) == [item] + rest + tail
  {
    ItemReadsBack(buf, offset, item);
    ChainUnfolds(buf, offset, end);
    assert [item] + (rest + tail) == [item] + rest + tail;
  }

  lemma ItemReadsBack(buf: seq<Byte>, offset: nat, item: Item)
    requires item.Fits() && offset + 6 + |item.data| <= |buf|
    requires buf[offset..offset + 6 + |item.data|] == ItemBytes(item)
    ensures GetU32(buf, offset) == 6 + |item.data| && ReadItem(buf, offset) == item
  {
    var b := buf[offset..offset + 6 + |item.data|];
    assert b[..4] == U32(6 + |item.data|) && b[4..6] == U16(item.cp) && b[6..] == item.data;
    Within(buf, offset, offset + 6 + |item.data|, 0, 4);
    Within(buf, offset, offset + 6 + |item.data|, 4, 6);
    Within(buf, offset, offset + 6 + |item.data|, 6, 6 + |item.data|);
    ReadsU32(buf, offset, 6 + |item.data|);
    ReadsU16(buf, offset + 4, item.cp);
  }

  // ---- Grouping by code point ----

  /** The data stored under a code point, in the order of the items. */
  function DataOf(items: seq<Item>, cp: nat): (d: seq<seq<Byte>>) {
    if items == [] then [] else (if items[0].cp == cp then [items[0].data] else []) + DataOf(items[1..], cp)
  }

  type CodePoints = map<nat, seq<seq<Byte>>>

  /** The multimap that holds exactly the data of `items`. */
  ghost predicate Groups(m: CodePoints, items: seq<Item>) {
    forall cp: nat :: if cp in m then m[cp] == DataOf(items, cp) && m[cp] != [] else DataOf(items, cp) == []
  }

  lemma {:induction false} DataOfAppend(items: seq<Item>, last: Item, cp: nat)
    ensures DataOf(items + [last], cp) == DataOf(items, cp) + (if last.cp == cp then [last.data] else [])
    decreases |items|
  {
    if items == [] {
      assert (items + [last])[1..] == [];
    } else {
      var first := if items[0].cp == cp then [items[0].data] else [];
      assert (items + [last])[1..] == items[1..] + [last];
      DataOfAppend(items[1..], last, cp);
      assert DataOf(items + [last], cp) == first + DataOf(items[1..] + [last], cp);
    }
  }

  lemma GroupsNone()
    ensures Groups(map[], [])
  {}

  lemma GroupsAppend(m: CodePoints, items: seq<Item>, last: Item)
    requires Groups(m, items)
    ensures Groups(m[last.cp := (if last.cp in m then m[last.cp] else []) + [last.data]], items + [last])
  {
    forall cp: nat {
      DataOfAppend(items, last, cp);
    }
  }

  // ---- Parsing a reply ----

  function Min(a: nat, b: nat): (m: nat) {
    if a < b then a else b
  }

  datatype ParsedReply = ParsedReply(header: Header, template: seq<Byte>, codePoints: CodePoints)

  /** `reply` holds what the bytes say: the header fields, the template area and the longest item chain behind it. */
  ghost predicate Parses(buf: seq<Byte>, reply: ParsedReply) {
    && ParseHeader(buf) == Ok(reply.header)
    && reply.header.totalLength <= |buf|
    && var templateEnd := HEADER_LENGTH + reply.header.templateLen;
       && reply.template == buf[HEADER_LENGTH..Min(templateEnd, |buf|)]
       && Groups(reply.codePoints, Chain(buf, templateEnd, reply.header.totalLength))
  }

  method Parse(buf: seq<Byte>) returns (r: Result<ParsedReply>)
    ensures r.Ok? ==> Parses(buf, r.value)
    ensures r == Err(TooShort) <==> |buf| < HEADER_LENGTH
    ensures r.Err? && |buf| >= HEADER_LENGTH ==> r == Err(ExceedsBuffer(GetU32(buf, 0))) && GetU32(buf, 0) > |buf|
  {
    if |buf| < HEADER_LENGTH {
      return Err(TooShort);
    }
    var header := ParseHeader(buf).value;
    if header.totalLength > |buf| {
      return Err(ExceedsBuffer(header.totalLength));
    }
    var templateEnd := HEADER_LENGTH + header.templateLen;
    var template := buf[HEADER_LENGTH..Min(templateEnd, |buf|)];
    var codePoints := ParseItems(buf, templateEnd, header.totalLength);
    r := Ok(ParsedReply(header, template, codePoints));
  }

  /** The loop of `parse`: walks the chain and files each item under its code point. */
  method ParseItems(buf: seq<Byte>, start: nat, end: nat) returns (codePoints: CodePoints)
    requires end <= |buf|
    ensures Groups(codePoints, Chain(buf, start, end))
  {
    hide Groups, Chain;
    codePoints := map[];
    GroupsNone();
    var offset := start;
    ghost var items: seq<Item> := [];
    while offset + 6 <= end
      invariant AllFit(items) && Groups(codePoints, items)
      invariant Chain(buf, start, end) == items + Chain(buf, offset, end)
      decreases end - offset
    {
      var ll := GetU32(buf, offset);
      if ll < 6 || offset + ll > end {
        break;
      }
      var cp, data := GetU16(buf, offset + 4), buf[offset + 6..offset + ll];
      ghost var item := ReadItem(buf, offset);
      GroupsAppend(codePoints, items, item);
      ChainUnfolds(buf, offset, end);
      assert items + ([item] + Chain(buf, offset + ll, end)) == (items + [item]) + Chain(buf, offset + ll, end);
      codePoints := codePoints[cp := (if cp in codePoints then codePoints[cp] else []) + [data]];
      items := items + [item];
      offset := offset + ll;
    }
    NoItem(buf, offset, end);
    assert items + [] == items;
  }

  lemma NoItem(buf: seq<Byte>, offset: nat, end: nat)
    requires end <= |buf| && !ItemAt(buf, offset, end)
    ensures Chain(buf, offset, end) == []
  {}

  /** A buffer parses in at most one way. */
  lemma ParsesUnique(buf: seq<Byte>, a: ParsedReply, b: ParsedReply)
    requires Parses(buf, a) && Parses(buf, b)
    ensures a == b
  {
    var items := Chain(buf, HEADER_LENGTH + a.header.templateLen, a.header.totalLength);
    forall cp: nat ensures (cp in a.codePoints) == (cp in b.codePoints) {
      assert DataOf(items, cp) == [] || DataOf(items, cp) != [];
    }
    assert a.codePoints.Keys == b.codePoints.Keys;
  }

  // ---- Building a request ----

  /** A whole datastream: header, template, items. */
  function Datastream(h: Header, template: seq<Byte>, items: seq<Item>): (b: seq<Byte>)
    requires h.Fits() && AllFit(items)
  {
    HeaderBytes(h) + template + ItemsBytes(items)
  }

  class RequestBuilder {
    const serverId: int
    const reqRepId: int
    var headerID: int
    var csInstance: int
    var correlation: int
    var templateLen: int
    var templateData: Option<seq<Byte>>
    var llcpItems: seq<Item>

    constructor (serverId: int, reqRepId: int, correlation: int)
      ensures this.serverId == serverId && this.reqRepId == reqRepId && this.correlation == correlation
      ensures headerID == 0 && csInstance == 0 && templateLen == 0 && templateData == None && llcpItems == []
    {
      this.serverId, this.reqRepId, this.correlation := serverId, reqRepId, correlation;
      headerID, csInstance, templateLen, templateData, llcpItems := 0, 0, 0, None, [];
    }

    method SetHeaderID(id: int)
      modifies this`headerID
      ensures headerID == id
    {
      headerID := id;
    }

    method SetCSInstance(id: int)
      modifies this`csInstance
      ensures csInstance == id
    {
      csInstance := id;
    }

    method SetCorrelation(id: int)
      modifies this`correlation
      ensures correlation == id
    {
      correlation := id;
    }

    method SetTemplateLen(len: int)
      modifies this`templateLen
      ensures templateLen == len
    {
      templateLen := len;
    }

    method WriteTemplate(data: seq<Byte>)
      modifies this`templateData, this`templateLen
      ensures templateData == Some(data) && templateLen == |data|
    {
      templateData, templateLen := Some(data), |data|;
    }

    method AddLLCP(codePoint: nat, data: seq<Byte>)
      modifies this`llcpItems
      ensures llcpItems == old(llcpItems) + [Item(codePoint, data)]
    {
      llcpItems := llcpItems + [Item(codePoint, data)];
    }

    /** Prefixes the data with a CCSID; one that needs more than 32 bits makes the write throw. */
    method AddLLCPWithCCSID(codePoint: nat, ccsid: nat, data: seq<Byte>) returns (r: Result<()>)
      modifies this`llcpItems
      ensures r == if ccsid < TWO_32 then Ok(()) else Err(OutOfRange)
      ensures llcpItems == old(llcpItems) + if ccsid < TWO_32 then [Item(codePoint, U32(ccsid) + data)] else []
    {
      if ccsid >= TWO_32 {
        return Err(OutOfRange);
      }
      var combined := new Byte[4 + |data|](_ => 0);
      PutU32(combined, ccsid, 0);
      PutBytes(combined, data, 4);
      assert combined[..] == combined[..4 + |data|] == U32(ccsid) + data;
      llcpItems := llcpItems + [Item(codePoint, combined[..])];
      r := Ok(());
    }

    /** The header the fields stand for. */
    ghost function HeaderFields(): (h: Header)
      requires 0 <= headerID && 0 <= serverId && 0 <= reqRepId && 0 <= templateLen
      reads this
    {
      Header(HEADER_LENGTH + templateLen + ItemsSize(llcpItems), headerID, serverId, ToUint32(csInstance),
             ToUint32(correlation), templateLen, reqRepId)
    }

    /** Every field fits the width it is written with. */
    ghost predicate Buildable()
      reads this
    {
      && 0 <= headerID && 0 <= serverId && 0 <= reqRepId && 0 <= templateLen
      && HeaderFields().Fits() && AllFit(llcpItems)
    }

    /** The template area: the data cut or zero-filled to the template length. */
    ghost function Template(): (t: seq<Byte>)
      requires 0 <= templateLen
      reads this
    {
      FitTo(if templateData.Some? then templateData.value else [], templateLen)
    }

    method Build() returns (r: Result<seq<Byte>>)
      ensures r.Ok? <==> Buildable()
      ensures r.Ok? ==> r.value == Datastream(HeaderFields(), Template(), llcpItems)
      ensures r.Err? ==> r == Err(OutOfRange)
    {
      var llcpSize := PayloadSize(llcpItems);
      if headerID < 0 || serverId < 0 || reqRepId < 0 || templateLen < 0 {
        return Err(OutOfRange);
      }
      var totalLength := HEADER_LENGTH + templateLen + llcpSize;
      var h := Header(totalLength, headerID, serverId, ToUint32(csInstance), ToUint32(correlation), templateLen, reqRepId);
      if !h.Fits() || exists i | 0 <= i < |llcpItems| :: !llcpItems[i].Fits() {
        return Err(OutOfRange);
      }
      var bytes := PutDatastream(h, if templateData.Some? then templateData.value else [], llcpItems);
      r := Ok(bytes);
    }
  }

  /** `data.copy(buf, at, 0, len)` into a zeroed area. */
  method PutTemplate(buf: array<Byte>, at: nat, data: seq<Byte>, len: nat)
    requires at + len <= buf.Length && forall i | at <= i < buf.Length :: buf[i] == 0
    modifies buf
    ensures buf[..at + len] == old(buf[..at]) + FitTo(data, len)
  {
    PutBytes(buf, if |data| <= len then data else data[..len], at);
    assert |data| <= len ==> buf[..at + len] == buf[..at + |data|] + Zeros(len - |data|);
  }

  /** Header, template and items written one behind the other into a zeroed buffer. */
  method PutDatastream(h: Header, template: seq<Byte>, items: seq<Item>) returns (r: seq<Byte>)
    requires h.Fits() && AllFit(items) && h.totalLength == HEADER_LENGTH + h.templateLen + ItemsSize(items)
    ensures r == Datastream(h, FitTo(template, h.templateLen), items)
  {
    var buf := new Byte[h.totalLength](_ => 0);
    PutHeader(buf, h);
    var offset := HEADER_LENGTH;
    PutTemplate(buf, offset, template, h.templateLen);
    offset := offset + h.templateLen;
    PutItems(buf, offset, items);
    r := buf[..];
    assert r == buf[..h.totalLength];
  }

  method PayloadSize(items: seq<Item>) returns (size: nat)
    ensures size == ItemsSize(items)
  {
    size := 0;
    for i := 0 to |items|
      invariant ItemsSize(items) == size + ItemsSize(items[i..])
    {
      assert items[i..][1..] == items[i + 1..];
      size := size + 6 + |items[i].data|;
    }
  }

  method PutItem(buf: array<Byte>, item: Item, offset: nat)
    requires item.Fits() && offset + 6 + |item.data| <= buf.Length
    modifies buf
    ensures buf[..offset + 6 + |item.data|] == old(buf[..offset]) + ItemBytes(item)
  {
    PutU32(buf, 6 + |item.data|, offset);
    PutU16(buf, item.cp, offset + 4);
    PutBytes(buf, item.data, offset + 6);
  }

  lemma MoveFront(done: seq<Byte>, items: seq<Item>, i: nat)
    requires AllFit(items) && i < |items|
    ensures done + ItemsBytes(items[i..]) == (done + ItemBytes(items[i])) + ItemsBytes(items[i + 1..])
    ensures ItemsSize(items[i..]) == 6 + |items[i].data| + ItemsSize(items[i + 1..])
  {
    assert items[i..] == [items[i]] + items[i + 1..];
    ItemsUnfold(items[i], items[i + 1..]);
  }

  /** Writes items one after another from a moving offset on. */
  method PutItems(buf: array<Byte>, start: nat, items: seq<Item>)
    requires AllFit(items) && start + ItemsSize(items) <= buf.Length
    modifies buf
    ensures buf[..start + ItemsSize(items)] == old(buf[..start]) + ItemsBytes(items)
  {
    ghost var all := buf[..start] + ItemsBytes(items);
    var offset: nat := start;
    assert items[0..] == items;
    for i := 0 to |items|
      invariant offset + ItemsSize(items[i..]) == start + ItemsSize(items)
      invariant all == buf[..offset] + ItemsBytes(items[i..])
    {
      MoveFront(buf[..offset], items, i);
      PutItem(buf, items[i], offset);
      offset := offset + 6 + |items[i].data|;
    }
    assert items[|items|..] == [];
  }

  // ---- Round trip ----

  /**
   Parsing a built datastream, whatever follows it in the buffer, succeeds and gives back the header
   fields, the template and, for each code point, its data in insertion order.
   */
  lemma RoundTrip(h: Header, template: seq<Byte>, items: seq<Item>, extra: seq<Byte>)
    requires h.Fits() && AllFit(items) && |template| == h.templateLen
    requires h.totalLength == HEADER_LENGTH + |template| + ItemsSize(items)
    ensures var buf := Datastream(h, template, items) + extra;
            && ParseHeader(buf) == Ok(h) && h.totalLength <= |buf|
            && forall reply | Parses(buf, reply) ::
                 reply.header == h && reply.template == template && Groups(reply.codePoints, items)
  {
    hide Groups, HeaderBytes, ItemsBytes, Chain, ParseHeader;
    var buf := Datastream(h, template, items) + extra;
    var t := HEADER_LENGTH + |template|;
    HeaderRoundTrip([], h, template + ItemsBytes(items) + extra);
    assert buf == [] + HeaderBytes(h) + (template + ItemsBytes(items) + extra);
    DatastreamParts(h, template, items, extra);
    ItemsInside(buf, t, h.totalLength, items);
  }

  lemma DatastreamParts(h: Header, template: seq<Byte>, items: seq<Item>, extra: seq<Byte>)
    requires h.Fits() && AllFit(items)
    ensures var buf, t := Datastream(h, template, items) + extra, HEADER_LENGTH + |template|;
            buf[HEADER_LENGTH..t] == template && buf[t..t + ItemsSize(items)] == ItemsBytes(items)
  {
    hide HeaderBytes, ItemsBytes;
  }

  /** Items that fill the whole bound are the chain. */
  lemma ItemsInside(buf: seq<Byte>, offset: nat, end: nat, items: seq<Item>)
    requires end <= |buf| && AllFit(items) && offset + ItemsSize(items) == end && buf[offset..end] == ItemsBytes(items)
    ensures Chain(buf, offset, end) == items
  {
    hide ItemsBytes;
    assert Chain(buf, end, end) == [];
    ChainIsLongest(buf, offset, end, items, []);
    assert items + [] == items;
  }
}
