/**
 The framing of src/transport/DataStream.js: the 20-byte header, and reading whole frames from a
 stream that hands out its bytes in pieces.
 */
module DataStream {
  import opened Bytes
  import opened Outcome

  const HEADER_LENGTH: nat := 20

  // ---- Header ----

  datatype Header = Header(totalLength: nat, headerID: nat, serverId: nat, csInstance: nat, correlation: nat,
                           templateLen: nat, reqRepId: nat)
  {
    predicate Fits() {
      && totalLength < TWO_32 && headerID < TWO_16 && serverId < TWO_16 && csInstance < TWO_32
      && correlation < TWO_32 && templateLen < TWO_16 && reqRepId < TWO_16
    }
  }

  /** The twenty bytes of a header whose fields fit. */
  function HeaderBytes(h: Header): (b: seq<Byte>)
    requires h.Fits()
    ensures |b| == HEADER_LENGTH
  {
    U32(h.totalLength) + U16(h.headerID) + U16(h.serverId) + U32(h.csInstance) + U32(h.correlation) +
    U16(h.templateLen) + U16(h.reqRepId)
  }

  function ParseHeader(buf: seq<Byte>, offset: nat := 0): (r: Result<Header>)
    ensures r.Ok? <==> offset + HEADER_LENGTH <= |buf|
    ensures r.Ok? ==> r.value.Fits()
  {
    if |buf| < offset + HEADER_LENGTH then Err(TooShort)
    else Ok(Header(GetU32(buf, offset), GetU16(buf, offset + 4), GetU16(buf, offset + 6), GetU32(buf, offset + 8),
                   GetU32(buf, offset + 12), GetU16(buf, offset + 16), GetU16(buf, offset + 18)))
  }

  lemma ReadsU16(b: seq<Byte>, at: nat, v: nat)
    requires v < TWO_16 && at + 2 <= |b| && b[at..at + 2] == U16(v)
    ensures GetU16(b, at) == v
  {
    assert b[at] == b[at..at + 2][0] && b[at + 1] == b[at..at + 2][1];
  }

  lemma ReadsU32(b: seq<Byte>, at: nat, v: nat)
    requires v < TWO_32 && at + 4 <= |b| && b[at..at + 4] == U32(v)
    ensures GetU32(b, at) == v
  {
    var s := b[at..at + 4];
    assert b[at] == s[0] && b[at + 1] == s[1] && b[at + 2] == s[2] && b[at + 3] == s[3];
  }

  /** Where each field lies. */
  lemma HeaderLayout(h: Header)
    requires h.Fits()
    ensures var b := HeaderBytes(h);
            && b[0..4] == U32(h.totalLength) && b[4..6] == U16(h.headerID) && b[6..8] == U16(h.serverId)
            && b[8..12] == U32(h.csInstance) && b[12..16] == U32(h.correlation)
            && b[16..18] == U16(h.templateLen) && b[18..20] == U16(h.reqRepId)
  {}

  /** Every field is the number its bytes denote, the most significant byte first. */
  lemma HeaderNumbers(h: Header)
    requires h.Fits()
    ensures var b := HeaderBytes(h);
            && BigEndian(b[0..4]) == h.totalLength && BigEndian(b[4..6]) == h.headerID && BigEndian(b[6..8]) == h.serverId
            && BigEndian(b[8..12]) == h.csInstance && BigEndian(b[12..16]) == h.correlation
            && BigEndian(b[16..18]) == h.templateLen && BigEndian(b[18..20]) == h.reqRepId
  {
    hide BigEndian, U16, U32;
    HeaderLayout(h);
    U32Denotes(h.totalLength);
    U16Denotes(h.headerID);
    U16Denotes(h.serverId);
    U32Denotes(h.csInstance);
    U32Denotes(h.correlation);
    U16Denotes(h.templateLen);
    U16Denotes(h.reqRepId);
  }

  /** Parsing what was built gives every field back, at any offset and whatever follows. */
  lemma HeaderRoundTrip(before: seq<Byte>, h: Header, after: seq<Byte>)
    requires h.Fits()
    ensures ParseHeader(before + HeaderBytes(h) + after, |before|) == Ok(h)
  {
    var b, n, hb := before + HeaderBytes(h) + after, |before|, HeaderBytes(h);
    HeaderLayout(h);
    Shifted(before, hb, after, 0, 4);
    ReadsU32(b, n, h.totalLength);
    Shifted(before, hb, after, 4, 6);
    ReadsU16(b, n + 4, h.headerID);
    Shifted(before, hb, after, 6, 8);
    ReadsU16(b, n + 6, h.serverId);
    Shifted(before, hb, after, 8, 12);
    ReadsU32(b, n + 8, h.csInstance);
    Shifted(before, hb, after, 12, 16);
    ReadsU32(b, n + 12, h.correlation);
    Shifted(before, hb, after, 16, 18);
    ReadsU16(b, n + 16, h.templateLen);
    Shifted(before, hb, after, 18, 20);
    ReadsU16(b, n + 18, h.reqRepId);
  }

  lemma Shifted(a: seq<Byte>, b: seq<Byte>, c: seq<Byte>, lo: nat, hi: nat)
    requires lo <= hi <= |b|
    ensures (a + b + c)[|a| + lo..|a| + hi] == b[lo..hi]
  {}

  /** Writes the twenty header bytes at the front of a buffer, field by field. */
  method PutHeader(buf: array<Byte>, h: Header)
    requires h.Fits() && buf.Length >= HEADER_LENGTH
    modifies buf
    ensures buf[..HEADER_LENGTH] == HeaderBytes(h)
    ensures forall i | HEADER_LENGTH <= i < buf.Length :: buf[i] == old(buf[i])
  {
    PutU32(buf, h.totalLength, 0);
    PutU16(buf, h.headerID, 4);
    PutU16(buf, h.serverId, 6);
    PutU32(buf, h.csInstance, 8);
    PutU32(buf, h.correlation, 12);
    PutU16(buf, h.templateLen, 16);
    PutU16(buf, h.reqRepId, 18);
  }

  /** `x >>> 0`: an integer reduced to 32 unsigned bits. */
  function ToUint32(x: int): (v: nat)
    ensures v < TWO_32 && (x - v) % TWO_32 == 0 && (0 <= x < TWO_32 ==> v == x)
  {
    x % TWO_32
  }

  /** The packet that starts with header `h`: a zeroed template, then the payload, cut or filled to the total length. */
  function PacketBytes(h: Header, payload: seq<Byte>): (b: seq<Byte>)
    requires h.Fits() && h.totalLength >= HEADER_LENGTH
  {
    HeaderBytes(h) + FitTo(Zeros(h.templateLen) + payload, h.totalLength - HEADER_LENGTH)
  }

  /** Behind the header there are zeros as long as the template, then the payload, then zeros again. */
  lemma PacketStands(h: Header, payload: seq<Byte>, i: nat)
    requires h.Fits() && HEADER_LENGTH <= i < h.totalLength
    ensures |PacketBytes(h, payload)| == h.totalLength && PacketBytes(h, payload)[..20] == HeaderBytes(h)
    ensures var k := i - 20 - h.templateLen;
            PacketBytes(h, payload)[i] == if 0 <= k < |payload| then payload[k] else 0
  {
    var body := Zeros(h.templateLen) + payload;
    assert PacketBytes(h, payload)[i] == FitTo(body, h.totalLength - HEADER_LENGTH)[i - 20];
  }

  /** Copies the payload behind a zeroed template, as far as the buffer reaches. */
  method PlaceBody(buf: array<Byte>, payload: seq<Byte>, templateLen: nat)
    requires buf.Length >= HEADER_LENGTH && forall i | HEADER_LENGTH <= i < buf.Length :: buf[i] == 0
    modifies buf
    ensures buf[..HEADER_LENGTH] == old(buf[..HEADER_LENGTH])
    ensures buf[HEADER_LENGTH..] == FitTo(Zeros(templateLen) + payload, buf.Length - HEADER_LENGTH)
  {
    var start := HEADER_LENGTH + templateLen;
    if start < buf.Length {
      var copied := if |payload| <= buf.Length - start then payload else payload[..buf.Length - start];
      PutBytes(buf, copied, start);
      assert buf[..HEADER_LENGTH] == buf[..start + |copied|][..HEADER_LENGTH];
      assert buf[HEADER_LENGTH..start + |copied|] == Zeros(templateLen) + copied;
      assert buf[HEADER_LENGTH..] == buf[HEADER_LENGTH..start + |copied|] + Zeros(buf.Length - start - |copied|);
    }
  }

  /** Builds a packet; a field that does not fit its width makes the buffer write throw. */
  method BuildPacket(serverId: nat, reqRepId: nat, templateLen: nat, headerID: nat, csInstance: int, correlation: int,
                     payload: seq<Byte>, totalLength: Option<nat>)
    returns (r: Result<seq<Byte>>)
    ensures var total := if totalLength.Some? then totalLength.value else HEADER_LENGTH + templateLen + |payload|;
            var h := Header(total, headerID, serverId, ToUint32(csInstance), ToUint32(correlation), templateLen, reqRepId);
            r == if h.Fits() && total >= HEADER_LENGTH then Ok(PacketBytes(h, payload)) else Err(OutOfRange)
  {
    var total := if totalLength.Some? then totalLength.value else HEADER_LENGTH + templateLen + |payload|;
    var h := Header(total, headerID, serverId, ToUint32(csInstance), ToUint32(correlation), templateLen, reqRepId);
    if !h.Fits() || total < HEADER_LENGTH {
      return Err(OutOfRange);
    }
    var buf := new Byte[total](_ => 0);
    PutHeader(buf, h);
    PlaceBody(buf, payload, templateLen);
    assert buf[..] == buf[..HEADER_LENGTH] + buf[HEADER_LENGTH..];
    r := Ok(buf[..]);
  }

  // ---- Frames ----

  /** A complete datastream: at least a header, and as long as its first field says. */
  predicate IsFrame(f: seq<Byte>) {
    |f| >= HEADER_LENGTH && GetU32(f, 0) == |f|
  }

  /** The first four bytes denote that length. */
  lemma FrameIff(f: seq<Byte>)
    ensures IsFrame(f) <==> |f| >= 20 && BigEndian(f[..4]) == |f|
  {
    hide BigEndian;
    if |f| >= 20 {
      WordsAreBigEndian(f, 0);
    }
  }

  function Concat(parts: seq<seq<Byte>>): (r: seq<Byte>) {
    if parts == [] then [] else parts[0] + Concat(parts[1..])
  }

  lemma {:induction false} ConcatAppend(parts: seq<seq<Byte>>, last: seq<Byte>)
    ensures Concat(parts + [last]) == Concat(parts) + last
  {
    if parts == [] {
      assert parts + [last] == [last];
      assert [last][1..] == [];
      assert Concat([last]) == last;
    } else {
      assert (parts + [last])[1..] == parts[1..] + [last];
      ConcatAppend(parts[1..], last);
    }
  }

  // ---- Reading from a stream ----

  /**
   What a stream hands out: the pieces its bytes arrive in, one `read` call getting at most the rest of the
   first piece. The empty piece is a call that returns null, after which the reader waits for the next
   'readable' event; after the last piece the stream ends. Whatever a socket returns to a series of
   `read` calls, null and short reads included, is one such list.
   */
  type Chunks = seq<seq<Byte>>

  /** What reading on until `n` bytes are there or the stream ends collects, and what it leaves. */
  function Gather(c: Chunks, n: nat): (r: (seq<Byte>, Chunks))
    ensures r.0 + Concat(r.1) == Concat(c)
    ensures if |Concat(c)| < n then |r.0| < n && r.1 == [] else |r.0| == n
    decreases |c|
  {
    if n == 0 || c == [] then ([], c)
    else if n < |c[0]| then (c[0][..n], [c[0][n..]] + c[1..])
    else
      var (more, after) := Gather(c[1..], n - |c[0]|);
      (c[0] + more, after)
  }

  /** Exactly `n` bytes, or the failure of a stream that ends before. */
  function Exactly(c: Chunks, n: nat): (r: (Result<seq<Byte>>, Chunks)) {
    var (got, after) := Gather(c, n);
    (if |got| == n then Ok(got) else Err(StreamEnded(|got|)), after)
  }

  function Frame(c: Chunks): (r: (Result<seq<Byte>>, Chunks)) {
    var (header, c1) := Exactly(c, HEADER_LENGTH);
    if header.Err? then (header, c1) else
      var total := GetU32(header.value, 0);
      if total < HEADER_LENGTH then (Err(InvalidTotalLength(total)), c1)
      else if total == HEADER_LENGTH then (header, c1)
      else
        var (body, c2) := Exactly(c1, total - HEADER_LENGTH);
        if body.Err? then (body, c2) else (Ok(header.value + body.value), c2)
  }

  /** What one `read(n)` takes off the front, and what it leaves. */
  function Take(c: Chunks, n: nat): (r: (seq<Byte>, Chunks))
    requires c != []
  {
    if n < |c[0]| then (c[0][..n], [c[0][n..]] + c[1..]) else (c[0], c[1..])
  }

  /** Having collected `acc`, reading on from `now` comes to what reading from `start` comes to. */
  ghost predicate Continues(start: Chunks, n: nat, acc: seq<Byte>, now: Chunks) {
    && |acc| <= n
    && Gather(start, n).0 == acc + Gather(now, n - |acc|).0
    && Gather(start, n).1 == Gather(now, n - |acc|).1
  }

  lemma ContinuesFromStart(start: Chunks, n: nat)
    ensures Continues(start, n, [], start)
  {}

  lemma ContinuesStep(start: Chunks, n: nat, acc: seq<Byte>, now: Chunks)
    requires Continues(start, n, acc, now) && |acc| < n && now != []
    ensures var (chunk, after) := Take(now, n - |acc|); Continues(start, n, acc + chunk, after)
  {
    var (chunk, after) := Take(now, n - |acc|);
    var want := n - |acc| - |chunk|;
    if want == 0 {
      assert Gather(after, want) == ([], after);
    }
    assert acc + (chunk + Gather(after, want).0) == (acc + chunk) + Gather(after, want).0;
  }

  class Readable {
    var chunks: Chunks

    constructor (chunks: Chunks)
      ensures this.chunks == chunks
    {
      this.chunks := chunks;
    }

    /** `read(n)`: at most `n` bytes; the empty chunk stands for null. */
    method Read(n: nat) returns (chunk: seq<Byte>)
      requires chunks != []
      modifies this
      ensures (chunk, chunks) == Take(old(chunks), n)
    {
      if n < |chunks[0]| {
        chunk := chunks[0][..n];
        chunks := [chunks[0][n..]] + chunks[1..];
      } else {
        chunk := chunks[0];
        chunks := chunks[1..];
      }
    }

    /** `tryRead`: reads until something arrives; the empty chunk means the stream ended before that. */
    method FirstChunk(n: nat) returns (chunk: seq<Byte>)
      requires n > 0
      modifies this
      ensures Continues(old(chunks), n, chunk, chunks) && (chunk == [] ==> chunks == [])
    {
      ghost var start := chunks;
      chunk := [];
      ContinuesFromStart(start, n);
      while chunk == [] && chunks != []
        invariant Continues(start, n, chunk, chunks)
        decreases |chunks|, n - |chunk|
      {
        ContinuesStep(start, n, [], chunks);
        chunk := Read(n);
        assert [] + chunk == chunk;
      }
    }

    /** The partial-read handler: adds chunks to the first one until `n` bytes are there. */
    method Accumulate(chunk: seq<Byte>, n: nat, ghost start: Chunks) returns (r: Result<seq<Byte>>)
      requires Continues(start, n, chunk, chunks)
      modifies this
      ensures (r, chunks) == Exactly(start, n)
    {
      var parts := [chunk];
      var got := |chunk|;
      assert Concat(parts) == chunk;
      while got < n
        invariant got == |Concat(parts)| && Continues(start, n, Concat(parts), chunks)
        decreases |chunks|, n - got
      {
        if chunks == [] {
          return Err(StreamEnded(got));
        }
        ContinuesStep(start, n, Concat(parts), chunks);
        var more := Read(n - got);
        ConcatAppend(parts, more);
        parts := parts + [more];
        got := got + |more|;
      }
      assert Gather(start, n).0 == Concat(parts);
      r := Ok(Concat(parts));
    }

    /** Exactly `n` bytes, however many reads it takes. */
    method ReadExact(n: nat) returns (r: Result<seq<Byte>>)
      requires n > 0
      modifies this
      ensures (r, chunks) == Exactly(old(chunks), n)
    {
      var chunk := FirstChunk(n);
      if chunk == [] {
        return Err(StreamEnded(0));
      }
      r := Accumulate(chunk, n, old(chunks));
    }

    method ReadFrame() returns (r: Result<seq<Byte>>)
      modifies this
      ensures (r, chunks) == Frame(old(chunks))
    {
      var header := ReadExact(HEADER_LENGTH);
      if header.Err? {
        return header;
      }
      var totalLength := GetU32(header.value, 0);
      if totalLength < HEADER_LENGTH {
        return Err(InvalidTotalLength(totalLength));
      }
      if totalLength == HEADER_LENGTH {
        return header;
      }
      var body := ReadExact(totalLength - HEADER_LENGTH);
      if body.Err? {
        return body;
      }
      r := Ok(header.value + body.value);
    }
  }

  // ---- Every chunking gives the same frames ----

  /** Reading `n` bytes depends on the bytes only, not on the pieces they arrive in. */
  lemma GatherIgnoresChunking(c: Chunks, d: Chunks, n: nat)
    requires Concat(c) == Concat(d)
    ensures Gather(c, n).0 == Gather(d, n).0 && Concat(Gather(c, n).1) == Concat(Gather(d, n).1)
  {
    var (got, after) := Gather(c, n);
    var (got', after') := Gather(d, n);
    assert got == Concat(c)[..|got|] && got' == Concat(d)[..|got'|];
    assert Concat(after) == Concat(c)[|got|..] && Concat(after') == Concat(d)[|got'|..];
  }

  lemma ExactlyIgnoresChunking(c: Chunks, d: Chunks, n: nat)
    requires Concat(c) == Concat(d)
    ensures Exactly(c, n).0 == Exactly(d, n).0 && Concat(Exactly(c, n).1) == Concat(Exactly(d, n).1)
  {
    hide Gather, Concat;
    GatherIgnoresChunking(c, d, n);
  }

  lemma ExactlyGives(c: Chunks, n: nat)
    ensures Exactly(c, n).0.Ok? ==> |Exactly(c, n).0.value| == n
  {
    hide Gather, Concat;
  }

  /** So does reading a frame, errors included. */
  lemma FrameIgnoresChunking(c: Chunks, d: Chunks)
    requires Concat(c) == Concat(d)
    ensures Frame(c).0 == Frame(d).0 && Concat(Frame(c).1) == Concat(Frame(d).1)
  {
    hide Exactly, GetU32, Concat;
    ExactlyIgnoresChunking(c, d, HEADER_LENGTH);
    var (header, c1) := Exactly(c, HEADER_LENGTH);
    if header.Ok? {
      ExactlyGives(c, HEADER_LENGTH);
      var total := GetU32(header.value, 0);
      if total > HEADER_LENGTH {
        ExactlyIgnoresChunking(c1, Exactly(d, HEADER_LENGTH).1, total - HEADER_LENGTH);
      }
    }
  }

  /** A stream that holds a frame and more gives the frame and leaves the rest. */
  lemma FrameAtFront(c: Chunks, f: seq<Byte>, rest: seq<Byte>)
    requires IsFrame(f) && Concat(c) == f + rest
    ensures Frame(c).0 == Ok(f) && Concat(Frame(c).1) == rest
  {
    hide Gather;
    var (header, c1) := Exactly(c, HEADER_LENGTH);
    assert Concat(c)[..HEADER_LENGTH] == header.value == f[..HEADER_LENGTH];
    assert GetU32(header.value, 0) == GetU32(f, 0);
    assert Concat(c1) == Concat(c)[HEADER_LENGTH..] == f[HEADER_LENGTH..] + rest;
    if |f| > HEADER_LENGTH {
      var (body, c2) := Exactly(c1, |f| - HEADER_LENGTH);
      assert body.value == Concat(c1)[..|f| - HEADER_LENGTH] == f[HEADER_LENGTH..];
      assert header.value + body.value == f;
      assert Concat(c2) == Concat(c1)[|f| - HEADER_LENGTH..] == rest;
    }
  }

  /** A stream that ends inside a frame fails. */
  lemma FrameCutShort(c: Chunks, f: seq<Byte>)
    requires IsFrame(f) && Concat(c) <= f && |Concat(c)| < |f|
    ensures Frame(c).0.Err? && Frame(c).0.error.StreamEnded? && Frame(c).1 == []
  {
    hide Gather;
    var (header, c1) := Exactly(c, HEADER_LENGTH);
    if header.Ok? {
      assert Concat(c)[..HEADER_LENGTH] == header.value == f[..HEADER_LENGTH];
      assert GetU32(header.value, 0) == GetU32(f, 0);
      assert |Concat(c1)| == |Concat(c)| - HEADER_LENGTH;
    }
  }

  /** Frames read one after another until one fails or `count` are there. */
  function Frames(c: Chunks, count: nat): (r: (seq<seq<Byte>>, Chunks))
    ensures |r.0| <= count
    decreases count
  {
    if count == 0 then ([], c) else
      var (first, c1) := Frame(c);
      if first.Err? then ([], c1) else
        var (more, c2) := Frames(c1, count - 1);
        ([first.value] + more, c2)
  }

  lemma NoFrames(c: Chunks)
    ensures Frames(c, 0) == ([], c) && Concat([]) == []
  {}

  lemma ConcatFirst(frames: seq<seq<Byte>>, rest: seq<Byte>)
    requires frames != []
    ensures Concat(frames) + rest == frames[0] + (Concat(frames[1..]) + rest)
    ensures |Concat(frames)| == |frames[0]| + |Concat(frames[1..])|
  {
    Associates(frames[0], Concat(frames[1..]), rest);
  }

  lemma Associates(a: seq<Byte>, b: seq<Byte>, c: seq<Byte>)
    ensures a + b + c == a + (b + c)
  {}

  lemma FramesFirst(c: Chunks, frames: seq<seq<Byte>>)
    requires frames != [] && Frame(c).0 == Ok(frames[0])
    ensures var more := Frames(Frame(c).1, |frames| - 1);
            Frames(c, |frames|) == ([frames[0]] + more.0, more.1)
    ensures var more := Frames(Frame(c).1, |frames| - 1);
            Frames(c, |frames|).0 == frames <==> more.0 == frames[1..]
  {
    hide Frame;
    var more := Frames(Frame(c).1, |frames| - 1);
    assert frames == [frames[0]] + frames[1..];
    assert ([frames[0]] + more.0)[1..] == more.0;
  }

  /**
   For every list of frames, whatever follows them and however all these bytes arrive: successive
   reads return these frames in order and consume not one byte more.
   */
  lemma {:induction false} FramesInOrder(c: Chunks, frames: seq<seq<Byte>>, rest: seq<Byte>)
    requires forall i | 0 <= i < |frames| :: IsFrame(frames[i])
    requires Concat(c) == Concat(frames) + rest
    ensures Frames(c, |frames|).0 == frames && Concat(Frames(c, |frames|).1) == rest
    decreases |frames|
  {
    hide IsFrame, Frame, Frames, Concat;
    if frames == [] {
      NoFrames(c);
    } else {
      var others := Concat(frames[1..]) + rest;
      ConcatFirst(frames, rest);
      FrameAtFront(c, frames[0], others);
      FramesInOrder(Frame(c).1, frames[1..], rest);
      FramesFirst(c, frames);
    }
  }

  /**
   A stream that may end anywhere returns frames as sent, and all of them if and only if the pieces
   that arrived are together at least as long as the frames.
   */
  lemma {:induction false} AllFramesArriveIff(c: Chunks, frames: seq<seq<Byte>>, rest: seq<Byte>)
    requires forall i | 0 <= i < |frames| :: IsFrame(frames[i])
    requires Concat(c) <= Concat(frames) + rest
    ensures Frames(c, |frames|).0 <= frames
    ensures Frames(c, |frames|).0 == frames <==> |Concat(c)| >= |Concat(frames)|
    ensures |Concat(c)| < |Concat(frames)| ==> Frames(c, |frames|).1 == []
    decreases |frames|
  {
    hide IsFrame, Frame, Concat;
    if frames == [] {
      NoFrames(c);
    } else {
      var f, others := frames[0], Concat(frames[1..]) + rest;
      ConcatFirst(frames, rest);
      if |Concat(c)| < |f| {
        FrameCutShort(c, f);
      } else {
        assert Concat(c) == f + Concat(c)[|f|..];
        FrameAtFront(c, f, Concat(c)[|f|..]);
        assert Concat(c)[|f|..] <= others;
        AllFramesArriveIff(Frame(c).1, frames[1..], rest);
        FramesFirst(c, frames);
      }
    }
  }
}
