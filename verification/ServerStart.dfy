/** The start-server request and reply of src/transport/ServerStart.js. */
module ServerStart {
  import opened Bytes
  import opened DataStream
  import opened Outcome
  import opened Llcp

  const CP_PASSWORD: nat := 0x1105
  const CP_AUTH_TOKEN: nat := 0x1115
  const CP_USER_ID: nat := 0x1104
  const CP_JOB_NAME: nat := 0x111F
  const CP_AAF: nat := 0x112F
  const CP_VERIFICATION: nat := 0x1130
  const CP_CLIENT_IP: nat := 0x1131

  const START_SERVER_REQ: nat := 0x7002
  const CCSID_UTF8: nat := 1208

  // ---- Searching a chain ----

  /** The position of the first item with the code point, or the number of items. */
  function FirstIndex(items: seq<Item>, cp: nat): (k: nat)
    ensures k <= |items|
    ensures forall i | 0 <= i < k :: items[i].cp != cp
    ensures k < |items| ==> items[k].cp == cp
  {
    if items == [] || items[0].cp == cp then 0 else 1 + FirstIndex(items[1..], cp)
  }

  /** Where the first item with the code point starts, if the chain holds one. */
  function FirstOffset(items: seq<Item>, start: nat, cp: nat): (at: int) {
    if items == [] then -1
    else if items[0].cp == cp then start
    else FirstOffset(items[1..], start + 6 + |items[0].data|, cp)
  }

  method FindCodePoint(buf: seq<Byte>, start: nat, cp: nat) returns (at: int)
    ensures at == FirstOffset(Chain(buf, start, |buf|), start, cp)
  {
    hide Chain;
    var offset: nat := start;
    while offset < |buf| - 5
      invariant FirstOffset(Chain(buf, start, |buf|), start, cp) == FirstOffset(Chain(buf, offset, |buf|), offset, cp)
      decreases |buf| - offset
    {
      var ll := GetU32(buf, offset);
      if ll < 6 || offset + ll > |buf| {
        break;
      }
      ChainUnfolds(buf, offset, |buf|);
      var cpVal := GetU16(buf, offset + 4);
      if cpVal == cp {
        return offset;
      }
      assert Chain(buf, offset, |buf|)[1..] == Chain(buf, offset + ll, |buf|);
      offset := offset + ll;
    }
    NoItem(buf, offset, |buf|);
    at := -1;
  }

  /** The scan finds the first item of the chain with that code point, and -1 exactly when there is none. */
  lemma {:induction false} FirstOffsetIsFirst(items: seq<Item>, start: nat, cp: nat)
    ensures var k := FirstIndex(items, cp);
            FirstOffset(items, start, cp) == if k == |items| then -1 else start + ItemsSize(items[..k])
    decreases |items|
  {
    if items != [] && items[0].cp != cp {
      FirstOffsetIsFirst(items[1..], start + 6 + |items[0].data|, cp);
      var k := FirstIndex(items, cp);
      assert items[..k][1..] == items[1..][..k - 1];
    }
  }

  /**
   The two scanners: the parser reads up to the total length of the header, `end`, the search up to the end
   of the buffer. The parsed multimap has a code point if and only if the item found lies within the
   parser's bound, and then that item holds the first data filed under it; so the two differ exactly when
   the first such item stands behind the bound.
   */
  lemma ScannersAgreeIff(buf: seq<Byte>, start: nat, end: nat, cp: nat, m: CodePoints)
    requires start <= |buf| && end <= |buf| && Groups(m, Chain(buf, start, end))
    ensures var at := FirstOffset(Chain(buf, start, |buf|), start, cp);
            && (at != -1 ==> 0 <= at <= |buf| - 6 && 6 <= GetU32(buf, at) <= |buf| - at)
            && (cp in m <==> at != -1 && at + GetU32(buf, at) <= end)
            && (cp in m ==> m[cp][0] == buf[at + 6..at + GetU32(buf, at)])
  {
    hide Chain;
    FoundWithin(buf, start, end, cp);
  }

  lemma {:induction false} FoundWithin(buf: seq<Byte>, start: nat, end: nat, cp: nat)
    requires start <= |buf| && end <= |buf|
    ensures var at, data := FirstOffset(Chain(buf, start, |buf|), start, cp), DataOf(Chain(buf, start, end), cp);
            && (at != -1 ==> start <= at && at + 6 <= |buf| && 6 <= GetU32(buf, at) <= |buf| - at)
            && (data != [] <==> at != -1 && at + GetU32(buf, at) <= end)
            && (data != [] ==> data[0] == buf[at + 6..at + GetU32(buf, at)])
    decreases |buf| - start
  {
    hide Chain;
    FoundItem(buf, start, cp);
    if !ItemAt(buf, start, end) {
      NoItem(buf, start, end);
    }
    if !ItemAt(buf, start, |buf|) {
      NoItem(buf, start, |buf|);
    } else {
      var item := ReadItem(buf, start);
      var next := start + 6 + |item.data|;
      ChainUnfolds(buf, start, |buf|);
      assert Chain(buf, start, |buf|)[1..] == Chain(buf, next, |buf|);
      if ItemAt(buf, start, end) {
        ChainUnfolds(buf, start, end);
        assert Chain(buf, start, end)[1..] == Chain(buf, next, end);
      }
      if item.cp != cp {
        FoundWithin(buf, next, end, cp);
      }
    }
  }

  /** The item the scan stops at is well formed and holds the data of the chain's first such item. */
  lemma {:induction false} FoundItem(buf: seq<Byte>, start: nat, cp: nat)
    requires start <= |buf|
    ensures var items := Chain(buf, start, |buf|);
            var k, at := FirstIndex(items, cp), FirstOffset(items, start, cp);
            at != -1 ==> k < |items| && start <= at && ItemAt(buf, at, |buf|) && ReadItem(buf, at) == items[k]
    decreases |buf| - start
  {
    hide Chain;
    if !ItemAt(buf, start, |buf|) {
      NoItem(buf, start, |buf|);
    } else {
      ChainUnfolds(buf, start, |buf|);
      var items := Chain(buf, start, |buf|);
      var next := start + 6 + |items[0].data|;
      if items[0].cp != cp {
        assert items[1..] == Chain(buf, next, |buf|);
        FoundItem(buf, next, cp);
      }
    }
  }

  // ---- The request ----

  datatype AuthScheme = PASSWORD | GSS_TOKEN | PROFILE_TOKEN | IDENTITY_TOKEN

  /** Absent optional texts are empty; an absent user ID is `None`. */
  datatype Options = Options(serverId: nat, authenticationBytes: seq<Byte>, userIdBytes: Option<seq<Byte>>,
                             authScheme: AuthScheme, addAuthFactor: seq<Byte>, verificationId: seq<Byte>,
                             clientIPAddr: seq<Byte>)

  function AuthSchemeByte(scheme: AuthScheme, authLen: nat): (b: Byte) {
    match scheme
    case PASSWORD => if authLen == 8 then 0x01 else if authLen == 20 then 0x03 else 0x07
    case GSS_TOKEN => 0x05
    case IDENTITY_TOKEN => 0x06
    case PROFILE_TOKEN => 0x02
  }

  function CcsidItem(cp: nat, text: seq<Byte>): (items: seq<Item>) {
    if text == [] then [] else [Item(cp, U32(CCSID_UTF8) + text)]
  }

  function AuthItem(o: Options): (items: seq<Item>) {
    [Item(if o.authScheme.PASSWORD? then CP_PASSWORD else CP_AUTH_TOKEN, o.authenticationBytes)]
  }

  function UserItem(o: Options): (items: seq<Item>) {
    if o.userIdBytes.Some? then [Item(CP_USER_ID, FitTo(o.userIdBytes.value, 10))] else []
  }

  function FactorItem(o: Options): (items: seq<Item>) {
    if o.authScheme.PASSWORD? then CcsidItem(CP_AAF, o.addAuthFactor) else []
  }

  function ClientItem(o: Options): (items: seq<Item>) {
    if o.authScheme.PROFILE_TOKEN? then CcsidItem(CP_CLIENT_IP, o.clientIPAddr) else []
  }

  /** The items a request carries, in order. */
  function RequestItems(o: Options): (items: seq<Item>) {
    AuthItem(o) + UserItem(o) + FactorItem(o) + CcsidItem(CP_VERIFICATION, o.verificationId) + ClientItem(o)
  }

  function RequestHeader(o: Options): (h: Header) {
    Header(22 + ItemsSize(RequestItems(o)), 0x0200, o.serverId, 0, 0, 2, START_SERVER_REQ)
  }

  function RequestTemplate(o: Options): (t: seq<Byte>) {
    [AuthSchemeByte(o.authScheme, |o.authenticationBytes|), 0x01]
  }

  lemma {:induction false} SizeOfConcat(a: seq<Item>, b: seq<Item>)
    ensures ItemsSize(a + b) == ItemsSize(a) + ItemsSize(b)
    decreases |a|
  {
    if a == [] {
      assert a + b == b;
    } else {
      assert (a + b)[1..] == a[1..] + b;
      SizeOfConcat(a[1..], b);
    }
  }

  lemma {:induction false} BytesOfConcat(a: seq<Item>, b: seq<Item>)
    requires AllFit(a) && AllFit(b)
    ensures ItemsBytes(a + b) == ItemsBytes(a) + ItemsBytes(b)
    decreases |a|
  {
    if a == [] {
      assert a + b == b;
    } else {
      assert (a + b)[1..] == a[1..] + b;
      BytesOfConcat(a[1..], b);
    }
  }

  /** Items no larger together than a datastream may be fit one by one. */
  lemma {:induction false} SmallItemsFit(items: seq<Item>)
    requires ItemsSize(items) < TWO_32 && forall i | 0 <= i < |items| :: items[i].cp < TWO_16
    ensures AllFit(items)
    decreases |items|
  {
    if items != [] {
      SmallItemsFit(items[1..]);
      assert forall i | 1 <= i < |items| :: items[i] == items[1..][i - 1];
    }
  }

  lemma OneItemBytes(item: Item)
    requires item.Fits()
    ensures AllFit([item]) && ItemsBytes([item]) == ItemBytes(item) && ItemsSize([item]) == 6 + |item.data|
  {
    ItemsUnfold(item, []);
    assert [item] + [] == [item];
  }

  /** Writes one part, of at most one item, behind what is already written. */
  method Append(buf: array<Byte>, offset: nat, part: seq<Item>) returns (next: nat)
    requires AllFit(part) && |part| <= 1 && offset + ItemsSize(part) <= buf.Length
    modifies buf
    ensures next == offset + ItemsSize(part) && buf[..next] == old(buf[..offset]) + ItemsBytes(part)
  {
    next := offset;
    if part != [] {
      assert part == [part[0]];
      OneItemBytes(part[0]);
      PutItem(buf, part[0], offset);
      next := offset + 6 + |part[0].data|;
    }
  }

  /** The size the source adds up before it allocates. */
  method RequestSize(o: Options) returns (size: nat)
    ensures size == RequestHeader(o).totalLength
  {
    size := 22;
    size := size + 6 + |o.authenticationBytes|;
    if o.userIdBytes.Some? {
      size := size + 16;
    }
    if o.authScheme.PASSWORD? && |o.addAuthFactor| > 0 {
      size := size + 10 + |o.addAuthFactor|;
    }
    if |o.verificationId| > 0 {
      size := size + 10 + |o.verificationId|;
    }
    if o.authScheme.PROFILE_TOKEN? && |o.clientIPAddr| > 0 {
      size := size + 10 + |o.clientIPAddr|;
    }
    SizeByParts(o);
  }

  lemma CcsidItemSize(cp: nat, text: seq<Byte>)
    ensures ItemsSize(CcsidItem(cp, text)) == if text == [] then 0 else 10 + |text|
  {}

  lemma SizeOfFive(a: seq<Item>, b: seq<Item>, c: seq<Item>, d: seq<Item>, e: seq<Item>)
    ensures ItemsSize(a + b + c + d + e) == ItemsSize(a) + ItemsSize(b) + ItemsSize(c) + ItemsSize(d) + ItemsSize(e)
  {
    SizeOfConcat(a + b + c + d, e);
    SizeOfConcat(a + b + c, d);
    SizeOfConcat(a + b, c);
    SizeOfConcat(a, b);
  }

  lemma SizeByParts(o: Options)
    ensures ItemsSize(RequestItems(o)) ==
            6 + |o.authenticationBytes|
            + (if o.userIdBytes.Some? then 16 else 0)
            + (if o.authScheme.PASSWORD? && o.addAuthFactor != [] then 10 + |o.addAuthFactor| else 0)
            + (if o.verificationId != [] then 10 + |o.verificationId| else 0)
            + (if o.authScheme.PROFILE_TOKEN? && o.clientIPAddr != [] then 10 + |o.clientIPAddr| else 0)
  {
    SizeOfFive(AuthItem(o), UserItem(o), FactorItem(o), CcsidItem(CP_VERIFICATION, o.verificationId), ClientItem(o));
    CcsidItemSize(CP_AAF, o.addAuthFactor);
    CcsidItemSize(CP_VERIFICATION, o.verificationId);
    CcsidItemSize(CP_CLIENT_IP, o.clientIPAddr);
  }

  method BuildRequest(o: Options) returns (r: Result<seq<Byte>>)
    ensures r.Ok? <==> RequestHeader(o).Fits()
    ensures r.Ok? ==> AllFit(RequestItems(o)) && r.value == Datastream(RequestHeader(o), RequestTemplate(o), RequestItems(o))
  {
    var size := RequestSize(o);
    if size >= TWO_32 || o.serverId >= TWO_16 {
      return Err(OutOfRange);
    }
    SmallItemsFit(RequestItems(o));
    var buf := new Byte[size](_ => 0);
    PutHeader(buf, Header(size, 0x0200, o.serverId, 0, 0, 2, START_SERVER_REQ));
    buf[20] := AuthSchemeByte(o.authScheme, |o.authenticationBytes|);
    buf[21] := 0x01;
    ghost var front := HeaderBytes(RequestHeader(o)) + RequestTemplate(o);
    assert buf[..22] == buf[..20] + [buf[20], buf[21]] == front;
    var a, b, c, d, e := AuthItem(o), UserItem(o), FactorItem(o), CcsidItem(CP_VERIFICATION, o.verificationId), ClientItem(o);
    SizeOfFive(a, b, c, d, e);
    PartsFit(a, b, c, d, e);
    WriteParts(buf, a, b, c, d, e);
    assert buf[..] == buf[..size];
    r := Ok(buf[..]);
  }

  lemma Grow(front: seq<Byte>, items: seq<Item>, part: seq<Item>)
    requires AllFit(items) && AllFit(part)
    ensures AllFit(items + part)
    ensures (front + ItemsBytes(items)) + ItemsBytes(part) == front + ItemsBytes(items + part)
  {
    BytesOfConcat(items, part);
    Regroup(front, ItemsBytes(items), ItemsBytes(part));
  }

  lemma Regroup(a: seq<Byte>, b: seq<Byte>, c: seq<Byte>)
    ensures (a + b) + c == a + (b + c)
  {}

  /** The five parts behind the template, each at most one item. */
  method WriteParts(buf: array<Byte>, a: seq<Item>, b: seq<Item>, c: seq<Item>, d: seq<Item>, e: seq<Item>)
    requires |a| <= 1 && |b| <= 1 && |c| <= 1 && |d| <= 1 && |e| <= 1
    requires AllFit(a) && AllFit(b) && AllFit(c) && AllFit(d) && AllFit(e)
    requires buf.Length == 22 + ItemsSize(a) + ItemsSize(b) + ItemsSize(c) + ItemsSize(d) + ItemsSize(e)
    modifies buf
    ensures AllFit(a + b + c + d + e) && buf[..buf.Length] == old(buf[..22]) + ItemsBytes(a + b + c + d + e)
  {
    ghost var front := buf[..22];
    var offset := Append(buf, 22, a);
    Grow(front, a, b);
    offset := Append(buf, offset, b);
    Grow(front, a + b, c);
    offset := Append(buf, offset, c);
    Grow(front, a + b + c, d);
    offset := Append(buf, offset, d);
    Grow(front, a + b + c + d, e);
    offset := Append(buf, offset, e);
  }

  lemma PartsFit(a: seq<Item>, b: seq<Item>, c: seq<Item>, d: seq<Item>, e: seq<Item>)
    requires AllFit(a + b + c + d + e)
    ensures AllFit(a) && AllFit(b) && AllFit(c) && AllFit(d) && AllFit(e)
  {
    var all := a + b + c + d + e;
    assert a == all[..|a|] && b == all[|a|..|a| + |b|] && c == all[|a| + |b|..|a| + |b| + |c|];
    assert d == all[|a| + |b| + |c|..|all| - |e|] && e == all[|all| - |e|..];
  }

  /** A built request parses back to its fields, scheme byte and items. */
  lemma RequestParsesBack(o: Options, reply: ParsedReply)
    requires RequestHeader(o).Fits() && AllFit(RequestItems(o))
    requires Parses(Datastream(RequestHeader(o), RequestTemplate(o), RequestItems(o)), reply)
    ensures reply.header == RequestHeader(o) && reply.template == RequestTemplate(o)
    ensures Groups(reply.codePoints, RequestItems(o))
  {
    var d := Datastream(RequestHeader(o), RequestTemplate(o), RequestItems(o));
    RoundTrip(RequestHeader(o), RequestTemplate(o), RequestItems(o), []);
    assert d + [] == d;
  }

  /** The bytes of a request up to its credentials: lengths, the request number, the scheme's byte and the item's code point. */
  lemma RequestFront(o: Options)
    requires RequestHeader(o).Fits() && AllFit(RequestItems(o))
    ensures var b, auth := Datastream(RequestHeader(o), RequestTemplate(o), RequestItems(o)), o.authenticationBytes;
            && |b| >= 28 + |auth|
            && BigEndian(b[0..4]) == |b| && BigEndian(b[6..8]) == o.serverId
            && BigEndian(b[16..18]) == 2 && BigEndian(b[18..20]) == 0x7002
            && (o.authScheme == PASSWORD ==> b[20] == if |auth| == 8 then 1 else if |auth| == 20 then 3 else 7)
            && (o.authScheme == PROFILE_TOKEN ==> b[20] == 2)
            && (o.authScheme == GSS_TOKEN ==> b[20] == 5)
            && (o.authScheme == IDENTITY_TOKEN ==> b[20] == 6)
            && b[21] == 1
            && BigEndian(b[22..26]) == 6 + |auth|
            && BigEndian(b[26..28]) == (if o.authScheme == PASSWORD then 0x1105 else 0x1115)
            && b[28..28 + |auth|] == auth
  {
    hide BigEndian, HeaderBytes, ItemBytes, ItemsBytes, ItemsSize;
    var h, items := RequestHeader(o), RequestItems(o);
    var hb, t, b := HeaderBytes(h), RequestTemplate(o), Datastream(h, RequestTemplate(o), items);
    HeaderNumbers(h);
    assert b[..20] == hb && b[20] == t[0] && b[21] == t[1];
    assert b[..20][0..4] == b[0..4] && b[..20][6..8] == b[6..8] && b[..20][16..18] == b[16..18] && b[..20][18..20] == b[18..20];
    FirstItemStands(hb + t, items, b);
  }

  lemma FirstItemStands(front: seq<Byte>, items: seq<Item>, b: seq<Byte>)
    requires |front| == 22 && items != [] && AllFit(items) && b == front + ItemsBytes(items)
    ensures var data := items[0].data;
            && |b| >= 28 + |data| && BigEndian(b[22..26]) == 6 + |data| && BigEndian(b[26..28]) == items[0].cp
            && b[28..28 + |data|] == data
  {
    hide BigEndian, ItemBytes;
    ItemNumbers(items[0]);
    ItemsUnfold(items[0], items[1..]);
    assert [items[0]] + items[1..] == items;
    var i := ItemBytes(items[0]);
    assert b[22..22 + |i|] == i;
    assert i[..4] == b[22..26] && i[4..6] == b[26..28] && i[6..] == b[28..22 + |i|];
  }

  /** Behind the CCSID, 1208, as four bytes. */
  function Utf8(text: seq<Byte>): (data: seq<Byte>) {
    [0, 0, 0x04, 0xB8] + text
  }

  /** The items of a complete request with a password. */
  lemma PasswordItems(o: Options)
    requires o.userIdBytes.Some? && |o.userIdBytes.value| == 10 && o.verificationId != []
    requires o.authScheme == PASSWORD && o.addAuthFactor != []
    ensures RequestItems(o) == [Item(0x1105, o.authenticationBytes), Item(0x1104, o.userIdBytes.value),
                                Item(0x112F, Utf8(o.addAuthFactor)), Item(0x1130, Utf8(o.verificationId))]
  {
    assert U32(CCSID_UTF8) == [0, 0, 0x04, 0xB8];
    assert FitTo(o.userIdBytes.value, 10) == o.userIdBytes.value;
  }

  /** The items of a complete request with a profile token. */
  lemma ProfileTokenItems(o: Options)
    requires o.userIdBytes.Some? && |o.userIdBytes.value| == 10 && o.verificationId != []
    requires o.authScheme == PROFILE_TOKEN && o.clientIPAddr != []
    ensures RequestItems(o) == [Item(0x1115, o.authenticationBytes), Item(0x1104, o.userIdBytes.value),
                                Item(0x1130, Utf8(o.verificationId)), Item(0x1131, Utf8(o.clientIPAddr))]
  {
    assert U32(CCSID_UTF8) == [0, 0, 0x04, 0xB8];
    assert FitTo(o.userIdBytes.value, 10) == o.userIdBytes.value;
  }

  // ---- The reply ----

  datatype StartReply = StartReply(returnCode: nat, jobNameBytes: Option<seq<Byte>>, userIdBytes: Option<seq<Byte>>)

  /** The text behind the CCSID of the first item with a code point, unless that text is empty. */
  function CcsidText(items: seq<Item>, cp: nat): (t: Option<seq<Byte>>) {
    var k := FirstIndex(items, cp);
    if k < |items| && |items[k].data| > 4 then Some(items[k].data[4..]) else None
  }

  method ExtractText(reply: seq<Byte>, cp: nat) returns (t: Option<seq<Byte>>)
    requires |reply| >= 24
    ensures t == CcsidText(Chain(reply, 24, |reply|), cp)
  {
    t := None;
    var at := FindCodePoint(reply, 24, cp);
    FirstOffsetIsFirst(Chain(reply, 24, |reply|), 24, cp);
    FoundItem(reply, 24, cp);
    if at >= 0 {
      var ll := GetU32(reply, at);
      var dataLen := ll as int - 10;
      if dataLen > 0 && at + 10 + dataLen <= |reply| {
        t := Some(reply[at + 10..at + 10 + dataLen]);
        assert reply[at + 10..at + ll] == reply[at + 6..at + ll][4..];
      }
    }
  }

  method ParseReply(reply: seq<Byte>) returns (r: Result<StartReply>)
    ensures |reply| < 24 <==> r == Err(TooShort)
    ensures |reply| >= 24 ==>
              var rc, items := GetU32(reply, 20), Chain(reply, 24, |reply|);
              r == if rc != 0 then Err(ServerRefused(rc))
                   else Ok(StartReply(0, CcsidText(items, CP_JOB_NAME), CcsidText(items, CP_USER_ID)))
  {
    if |reply| < 24 {
      return Err(TooShort);
    }
    var returnCode := GetU32(reply, 20);
    var jobNameBytes, userIdBytes := None, None;
    if |reply| > 24 {
      jobNameBytes := ExtractText(reply, CP_JOB_NAME);
      userIdBytes := ExtractText(reply, CP_USER_ID);
    }
    if returnCode != 0 {
      return Err(ServerRefused(returnCode));
    }
    r := Ok(StartReply(returnCode, jobNameBytes, userIdBytes));
  }

  /** Any items behind the return code are the chain that is searched. */
  lemma ReplyItems(front: seq<Byte>, items: seq<Item>)
    requires |front| == 24 && AllFit(items)
    ensures var reply := front + ItemsBytes(items); Chain(reply, 24, |reply|) == items
  {
    hide ItemsBytes, Chain;
    var reply := front + ItemsBytes(items);
    assert reply[24..|reply|] == ItemsBytes(items);
    ItemsInside(reply, 24, |reply|, items);
  }

  lemma {:induction false} FirstIndexIs(items: seq<Item>, k: nat)
    requires k < |items| && forall i | 0 <= i < k :: items[i].cp != items[k].cp
    ensures FirstIndex(items, items[k].cp) == k
  {
    if k > 0 {
      FirstIndexIs(items[1..], k - 1);
    }
  }

  /**
   Whatever items a reply holds: the text behind the CCSID of the first one with a code point is the
   text found for it, unless it is empty; any later items of this code point do not matter.
   */
  lemma ReplyTextsFound(front: seq<Byte>, items: seq<Item>, k: nat, ccsid: nat, text: seq<Byte>)
    requires |front| == 24 && AllFit(items) && k < |items| && ccsid < TWO_32 && items[k].data == U32(ccsid) + text
    requires forall i | 0 <= i < k :: items[i].cp != items[k].cp
    ensures var reply := front + ItemsBytes(items);
            CcsidText(Chain(reply, 24, |reply|), items[k].cp) == if text == [] then None else Some(text)
  {
    hide U32, ItemsBytes, Chain;
    ReplyItems(front, items);
    FirstIndexIs(items, k);
    assert (U32(ccsid) + text)[4..] == text;
  }

  /** No text is found for a code point exactly when no item has it, or the first that does holds no text. */
  lemma ReplyTextMissingIff(front: seq<Byte>, items: seq<Item>, cp: nat)
    requires |front| == 24 && AllFit(items)
    ensures var reply := front + ItemsBytes(items);
            CcsidText(Chain(reply, 24, |reply|), cp) == None <==>
            forall k | 0 <= k < |items| && items[k].cp == cp && (forall i | 0 <= i < k :: items[i].cp != cp) :: |items[k].data| <= 4
  {
    hide ItemsBytes, Chain;
    ReplyItems(front, items);
    var k := FirstIndex(items, cp);
    if k < |items| {
      assert items[k].cp == cp;
    }
  }
}
