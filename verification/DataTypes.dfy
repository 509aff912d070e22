/**
 Composite data types: src/datatypes/AS400Structure.js and src/datatypes/AS400Array.js, nested to any
 depth over arbitrary scalar converters.
 */
module DataTypes {
  import opened Bytes
  import opened Outcome

  datatype Value<V> = Undefined | Null | Single(v: V) | Many(elements: seq<Value<V>>)

  /** A scalar converter; `accepts` tells the values it is meant for. */
  datatype Codec<!V> = Codec(
    size: nat,
    encode: Value<V> -> Result<seq<Byte>>,
    decode: (seq<Byte>, nat) -> Value<V>,
    accepts: Value<V> -> bool)

  datatype DataType<!V> = Scalar(codec: Codec<V>) | Structure(members: seq<DataType<V>>) | Array(element: DataType<V>, count: nat)

  // ---- Lengths ----

  function ByteLength<V>(t: DataType<V>): (n: nat)
    decreases t
  {
    match t
    case Scalar(c) => c.size
    case Structure(ms) => TotalLength(ms)
    case Array(e, count) => ByteLength(e) * count
  }

  function TotalLength<V>(ms: seq<DataType<V>>): (n: nat)
    decreases ms
  {
    if ms == [] then 0 else ByteLength(ms[0]) + TotalLength(ms[1..])
  }

  // ---- Encoding ----

  /** `data.copy(buf, at)`: what does not fit is dropped. */
  function Place(buf: seq<Byte>, data: seq<Byte>, at: nat): (r: seq<Byte>)
  {
    seq(|buf|, i requires 0 <= i < |buf| => if at <= i < at + |data| then data[i - at] else buf[i])
  }

  function ElementAt<V>(vs: seq<Value<V>>, i: nat): (v: Value<V>) {
    if i < |vs| then vs[i] else Undefined
  }

  function Encode<V>(t: DataType<V>, v: Value<V>): (r: Result<seq<Byte>>)
    decreases t, 0
  {
    match t
    case Scalar(c) => c.encode(v)
    case Structure(ms) => if v.Many? then EncodeMembers(ms, v.elements, 0, Zeros(TotalLength(ms)), 0) else Err(OutOfRange)
    case Array(e, count) =>
      if v.Many? then EncodeElements(e, count, v.elements, 0, Zeros(ByteLength(e) * count)) else Err(OutOfRange)
  }

  /** The members from the `i`-th value on, at a running offset. */
  function EncodeMembers<V>(ms: seq<DataType<V>>, vs: seq<Value<V>>, i: nat, buf: seq<Byte>, offset: nat): (r: Result<seq<Byte>>)
    decreases ms
  {
    if ms == [] then Ok(buf) else
      var b := Encode(ms[0], ElementAt(vs, i));
      if b.Err? then b else EncodeMembers(ms[1..], vs, i + 1, Place(buf, b.value, offset), offset + ByteLength(ms[0]))
  }

  /** The elements from the `i`-th on, each at its multiple of the element length. */
  function EncodeElements<V>(e: DataType<V>, count: nat, vs: seq<Value<V>>, i: nat, buf: seq<Byte>): (r: Result<seq<Byte>>)
    decreases e, 1, |vs| - i
  {
    if i >= count || i >= |vs| then Ok(buf) else
      var b := Encode(e, vs[i]);
      if b.Err? then b else EncodeElements(e, count, vs, i + 1, Place(buf, b.value, i * ByteLength(e)))
  }

  // ---- Decoding ----

  function Decode<V>(t: DataType<V>, buf: seq<Byte>, offset: nat): (v: Value<V>)
    decreases t, 0
  {
    match t
    case Scalar(c) => c.decode(buf, offset)
    case Structure(ms) => Many(DecodeMembers(ms, buf, offset))
    case Array(e, count) => Many(DecodeElements(e, buf, offset, count))
  }

  function DecodeMembers<V>(ms: seq<DataType<V>>, buf: seq<Byte>, pos: nat): (vs: seq<Value<V>>)
    ensures |vs| == |ms|
    decreases ms
  {
    if ms == [] then [] else [Decode(ms[0], buf, pos)] + DecodeMembers(ms[1..], buf, pos + ByteLength(ms[0]))
  }

  function DecodeElements<V>(e: DataType<V>, buf: seq<Byte>, offset: nat, n: nat): (vs: seq<Value<V>>)
    ensures |vs| == n
    decreases e, 1, n
  {
    if n == 0 then [] else DecodeElements(e, buf, offset, n - 1) + [Decode(e, buf, offset + (n - 1) * ByteLength(e))]
  }

  // ---- The loops ----

  method CopyInto(buf: array<Byte>, data: seq<Byte>, at: nat)
    modifies buf
    ensures buf[..] == Place(old(buf[..]), data, at)
  {
    forall i | 0 <= i < |data| && at + i < buf.Length {
      buf[at + i] := data[i];
    }
  }

  method ToBuffer<V>(t: DataType<V>, v: Value<V>) returns (r: Result<seq<Byte>>)
    ensures r == Encode(t, v)
    decreases t, 1
  {
    match t
    case Scalar(c) => r := c.encode(v);
    case Structure(ms) =>
      if v.Many? {
        r := StructureToBuffer(ms, v.elements);
      } else {
        r := Err(OutOfRange);
      }
    case Array(e, count) =>
      if v.Many? {
        r := ArrayToBuffer(e, count, v.elements);
      } else {
        r := Err(OutOfRange);
      }
  }

  method StructureToBuffer<V>(members: seq<DataType<V>>, values: seq<Value<V>>) returns (r: Result<seq<Byte>>)
    ensures r == EncodeMembers(members, values, 0, Zeros(TotalLength(members)), 0)
    decreases members
  {
    var total := TotalLength(members);
    var buf := new Byte[total](_ => 0);
    var offset: nat := 0;
    assert buf[..] == Zeros(total) && members[0..] == members;
    for i := 0 to |members|
      invariant EncodeMembers(members[i..], values, i, buf[..], offset) == EncodeMembers(members, values, 0, Zeros(total), 0)
    {
      assert members[i..][0] == members[i] && members[i..][1..] == members[i + 1..];
      var encoded := ToBuffer(members[i], ElementAt(values, i));
      if encoded.Err? {
        return encoded;
      }
      CopyInto(buf, encoded.value, offset);
      offset := offset + ByteLength(members[i]);
    }
    assert members[|members|..] == [];
    r := Ok(buf[..]);
  }

  method ArrayToBuffer<V>(e: DataType<V>, count: nat, values: seq<Value<V>>) returns (r: Result<seq<Byte>>)
    ensures r == EncodeElements(e, count, values, 0, Zeros(ByteLength(e) * count))
    decreases e, 2
  {
    var elemLen := ByteLength(e);
    var buf := new Byte[elemLen * count](_ => 0);
    assert buf[..] == Zeros(elemLen * count);
    var i := 0;
    while i < count && i < |values|
      invariant EncodeElements(e, count, values, i, buf[..]) == EncodeElements(e, count, values, 0, Zeros(elemLen * count))
    {
      var encoded := ToBuffer(e, values[i]);
      if encoded.Err? {
        return encoded;
      }
      CopyInto(buf, encoded.value, i * elemLen);
      i := i + 1;
    }
    r := Ok(buf[..]);
  }

  method FromBuffer<V>(t: DataType<V>, buf: seq<Byte>, offset: nat) returns (v: Value<V>)
    ensures v == Decode(t, buf, offset)
    decreases t, 1
  {
    match t
    case Scalar(c) => v := c.decode(buf, offset);
    case Structure(ms) =>
      var result := StructureFromBuffer(ms, buf, offset);
      v := Many(result);
    case Array(e, count) =>
      var result := ArrayFromBuffer(e, count, buf, offset);
      v := Many(result);
  }

  method StructureFromBuffer<V>(members: seq<DataType<V>>, buf: seq<Byte>, offset: nat) returns (result: seq<Value<V>>)
    ensures result == DecodeMembers(members, buf, offset)
    decreases members
  {
    hide DecodeMembers;
    result := [];
    var pos: nat := offset;
    assert members[0..] == members;
    for i := 0 to |members|
      invariant result + DecodeMembers(members[i..], buf, pos) == DecodeMembers(members, buf, offset)
    {
      NextMember(members, i, buf, pos);
      var v := FromBuffer(members[i], buf, pos);
      Regroup(result, v, DecodeMembers(members[i + 1..], buf, pos + ByteLength(members[i])));
      result := result + [v];
      pos := pos + ByteLength(members[i]);
    }
    NoMembers<V>(buf, pos);
    assert members[|members|..] == [];
  }

  lemma NextMember<V>(members: seq<DataType<V>>, i: nat, buf: seq<Byte>, pos: nat)
    requires i < |members|
    ensures DecodeMembers(members[i..], buf, pos)
         == [Decode(members[i], buf, pos)] + DecodeMembers(members[i + 1..], buf, pos + ByteLength(members[i]))
  {
    hide Decode;
    assert members[i..][0] == members[i] && members[i..][1..] == members[i + 1..];
  }

  lemma NoMembers<V>(buf: seq<Byte>, pos: nat)
    ensures DecodeMembers<V>([], buf, pos) == []
  {}

  lemma Regroup<T>(a: seq<T>, x: T, b: seq<T>)
    ensures a + ([x] + b) == (a + [x]) + b
  {}

  method ArrayFromBuffer<V>(e: DataType<V>, count: nat, buf: seq<Byte>, offset: nat) returns (result: seq<Value<V>>)
    ensures result == DecodeElements(e, buf, offset, count)
    decreases e, 2
  {
    var elemLen := ByteLength(e);
    result := [];
    for i := 0 to count
      invariant result == DecodeElements(e, buf, offset, i)
    {
      var v := FromBuffer(e, buf, offset + i * elemLen);
      result := result + [v];
    }
  }

  // ---- Laws ----

  ghost predicate KeepsValues<V(!new)>(c: Codec<V>) {
    && (forall v: Value<V> | c.accepts(v) :: c.encode(v).Ok?)
    && (forall v: Value<V> | c.encode(v).Ok? :: |c.encode(v).value| == c.size)
  }

  ghost predicate ReadsBack<V(!new)>(c: Codec<V>) {
    forall v: Value<V>, buf: seq<Byte>, offset: nat | c.accepts(v) && c.encode(v).Ok? && Stands(buf, offset, c.encode(v).value) ::
      c.decode(buf, offset) == v
  }

  ghost predicate IsLocal<V(!new)>(c: Codec<V>) {
    forall a: seq<Byte>, i: nat, b: seq<Byte>, j: nat | SameSlice(a, i, b, j, c.size) :: c.decode(a, i) == c.decode(b, j)
  }

  /** These bytes stand in the buffer at an offset. */
  ghost predicate Stands(buf: seq<Byte>, offset: nat, data: seq<Byte>) {
    offset + |data| <= |buf| && buf[offset..offset + |data|] == data
  }

  /** The same `n` bytes stand at one place of a buffer and at one place of another. */
  ghost predicate SameSlice(a: seq<Byte>, i: nat, b: seq<Byte>, j: nat, n: nat) {
    i + n <= |a| && j + n <= |b| && a[i..i + n] == b[j..j + n]
  }

  /**
   What every scalar converter in the type is taken to do: encode into its own length or fail, give back
   the values it accepts, and look at its own bytes only, wherever they stand.
   */
  ghost predicate Lawful<V(!new)>(t: DataType<V>)
    decreases t
  {
    match t
    case Scalar(c) => KeepsValues(c) && ReadsBack(c) && IsLocal(c)
    case Structure(ms) => AllLawful(ms)
    case Array(e, _) => Lawful(e)
  }

  ghost predicate AllLawful<V(!new)>(ms: seq<DataType<V>>)
    decreases ms
  {
    ms == [] || (Lawful(ms[0]) && AllLawful(ms[1..]))
  }

  /** A value of the type's shape, every scalar accepted. */
  ghost predicate Fits<V>(t: DataType<V>, v: Value<V>)
    decreases t
  {
    match t
    case Scalar(c) => c.accepts(v)
    case Structure(ms) => v.Many? && FitAll(ms, v.elements)
    case Array(e, count) => v.Many? && |v.elements| == count && forall i | 0 <= i < count :: Fits(e, v.elements[i])
  }

  ghost predicate FitAll<V>(ms: seq<DataType<V>>, vs: seq<Value<V>>)
    decreases ms
  {
    |ms| == |vs| && (ms == [] || (Fits(ms[0], vs[0]) && FitAll(ms[1..], vs[1..])))
  }
}
