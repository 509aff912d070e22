/** Nested structures and arrays give back what was put in, at any offset and to any depth. */
module DataTypeTheorems {
  import opened Bytes
  import opened Outcome
  import opened DataTypes

  /** The bytes of the members' values, one behind the other. */
  ghost function MemberBytes<V>(ms: seq<DataType<V>>, vs: seq<Value<V>>): (b: seq<Byte>)
    requires |ms| == |vs|
    decreases ms
  {
    if ms == [] || Encode(ms[0], vs[0]).Err? then [] else Encode(ms[0], vs[0]).value + MemberBytes(ms[1..], vs[1..])
  }

  /** The bytes of the first `n` elements. */
  ghost function ElementBytes<V>(e: DataType<V>, vs: seq<Value<V>>, n: nat): (b: seq<Byte>)
    requires n <= |vs|
  {
    if n == 0 || Encode(e, vs[n - 1]).Err? then [] else ElementBytes(e, vs, n - 1) + Encode(e, vs[n - 1]).value
  }

  /** Encoding succeeds and yields exactly the type's length. */
  ghost predicate EncodesFully<V>(t: DataType<V>, v: Value<V>) {
    Encode(t, v).Ok? && |Encode(t, v).value| == ByteLength(t)
  }

  lemma PlaceBehind(front: seq<Byte>, data: seq<Byte>, rest: seq<Byte>)
    requires |rest| >= |data|
    ensures Place(front + rest, data, |front|) == (front + data) + rest[|data|..]
  {}

  lemma {:induction false} EncodesMembers<V(!new)>(ms: seq<DataType<V>>, vs: seq<Value<V>>, all: seq<Value<V>>, i: nat, front: seq<Byte>)
    requires AllLawful(ms) && FitAll(ms, vs) && i + |vs| == |all| && vs == all[i..]
    ensures |MemberBytes(ms, vs)| == TotalLength(ms)
    ensures EncodeMembers(ms, all, i, front + Zeros(TotalLength(ms)), |front|) == Ok(front + MemberBytes(ms, vs))
    decreases ms
  {
    if ms == [] {
      assert front + Zeros(0) == front + [];
    } else {
      EncodesFits(ms[0], vs[0]);
      var b := Encode(ms[0], vs[0]).value;
      var n := TotalLength(ms[1..]);
      PlaceBehind(front, b, Zeros(TotalLength(ms)));
      assert Zeros(TotalLength(ms))[|b|..] == Zeros(n);
      EncodesMembers(ms[1..], vs[1..], all, i + 1, front + b);
      assert (front + b) + MemberBytes(ms[1..], vs[1..]) == front + MemberBytes(ms, vs);
    }
  }

  lemma {:induction false} EncodesElements<V(!new)>(e: DataType<V>, count: nat, vs: seq<Value<V>>, i: nat, rest: nat)
    requires Lawful(e) && |vs| == count && i <= count && rest == ByteLength(e) * (count - i)
    requires forall k | 0 <= k < count :: Fits(e, vs[k])
    requires forall k | 0 <= k < count :: EncodesFully(e, vs[k])
    ensures |ElementBytes(e, vs, i)| == i * ByteLength(e)
    ensures EncodeElements(e, count, vs, i, ElementBytes(e, vs, i) + Zeros(rest)) == Ok(ElementBytes(e, vs, count))
    decreases count - i
  {
    ElementBytesLength(e, vs, i);
    var front := ElementBytes(e, vs, i);
    if i == count {
      assert rest == 0 && front + Zeros(0) == front;
    } else {
      assert EncodesFully(e, vs[i]);
      var b := Encode(e, vs[i]).value;
      OneLess(ByteLength(e), count - i);
      PlaceBehind(front, b, Zeros(rest));
      assert Zeros(rest)[|b|..] == Zeros(rest - |b|);
      EncodesElements(e, count, vs, i + 1, rest - |b|);
    }
  }

  lemma OneLess(len: nat, n: nat)
    requires n > 0
    ensures len * n == len + len * (n - 1)
  {}

  lemma {:induction false} ElementBytesLength<V>(e: DataType<V>, vs: seq<Value<V>>, n: nat)
    requires n <= |vs| && forall k | 0 <= k < |vs| :: EncodesFully(e, vs[k])
    ensures |ElementBytes(e, vs, n)| == n * ByteLength(e)
  {
    if n > 0 {
      ElementBytesLength(e, vs, n - 1);
      assert EncodesFully(e, vs[n - 1]);
      OneLess(ByteLength(e), n);
    }
  }

  /** A value of the type's shape is encoded into exactly as many bytes as the type has. */
  lemma {:induction false} EncodesFits<V(!new)>(t: DataType<V>, v: Value<V>)
    requires Lawful(t) && Fits(t, v)
    ensures EncodesFully(t, v)
    decreases t, 2
  {
    match t
    case Scalar(c) => assert c.accepts(v);
    case Structure(ms) =>
      assert v.elements[0..] == v.elements && [] + Zeros(TotalLength(ms)) == Zeros(TotalLength(ms));
      EncodesMembers(ms, v.elements, v.elements, 0, []);
    case Array(e, count) =>
      ElementsEncode(e, count, v.elements);
      assert [] + Zeros(ByteLength(e) * count) == Zeros(ByteLength(e) * count);
      EncodesElements(e, count, v.elements, 0, ByteLength(e) * count);
      ElementBytesLength(e, v.elements, count);
  }

  lemma {:induction false} ElementsEncode<V(!new)>(e: DataType<V>, count: nat, vs: seq<Value<V>>)
    requires Lawful(e) && |vs| == count && forall i | 0 <= i < count :: Fits(e, vs[i])
    ensures forall i | 0 <= i < count :: EncodesFully(e, vs[i])
    decreases e, 3
  {
    forall i | 0 <= i < count ensures EncodesFully(e, vs[i]) {
      EncodesFits(e, vs[i]);
    }
  }

  // ---- Reading back ----

  lemma StandsParts(buf: seq<Byte>, offset: nat, a: seq<Byte>, b: seq<Byte>)
    requires Stands(buf, offset, a + b)
    ensures Stands(buf, offset, a) && Stands(buf, offset + |a|, b)
  {
    var s := buf[offset..offset + |a + b|];
    assert s[..|a|] == a && s[|a|..] == b;
    assert s[..|a|] == buf[offset..offset + |a|] && s[|a|..] == buf[offset + |a|..offset + |a| + |b|];
  }

  lemma {:induction false} MembersReadBack<V(!new)>(ms: seq<DataType<V>>, vs: seq<Value<V>>, buf: seq<Byte>, offset: nat)
    requires AllLawful(ms) && FitAll(ms, vs) && Stands(buf, offset, MemberBytes(ms, vs))
    ensures DecodeMembers(ms, buf, offset) == vs
    decreases ms
  {
    if ms != [] {
      EncodesFits(ms[0], vs[0]);
      StandsParts(buf, offset, Encode(ms[0], vs[0]).value, MemberBytes(ms[1..], vs[1..]));
      ReadsBackAt(ms[0], vs[0], buf, offset);
      MembersReadBack(ms[1..], vs[1..], buf, offset + ByteLength(ms[0]));
      assert vs == [vs[0]] + vs[1..];
    }
  }

  lemma {:induction false} ElementsReadBack<V(!new)>(e: DataType<V>, vs: seq<Value<V>>, buf: seq<Byte>, offset: nat, n: nat)
    requires Lawful(e) && n <= |vs| && (forall i | 0 <= i < |vs| :: Fits(e, vs[i])) && (forall i | 0 <= i < |vs| :: EncodesFully(e, vs[i]))
    requires Stands(buf, offset, ElementBytes(e, vs, n))
    ensures DecodeElements(e, buf, offset, n) == vs[..n]
    decreases e, 1, n
  {
    if n > 0 {
      hide Encode, Decode, ByteLength, Fits, Lawful;
      assert EncodesFully(e, vs[n - 1]) && Fits(e, vs[n - 1]);
      var b := Encode(e, vs[n - 1]).value;
      StandsParts(buf, offset, ElementBytes(e, vs, n - 1), b);
      ElementBytesLength(e, vs, n - 1);
      ReadsBackAt(e, vs[n - 1], buf, offset + (n - 1) * ByteLength(e));
      ElementsReadBack(e, vs, buf, offset, n - 1);
      assert vs[..n] == vs[..n - 1] + [vs[n - 1]];
    }
  }

  /** Wherever its encoding stands in a buffer, a value is read back there. */
  lemma {:induction false} ReadsBackAt<V(!new)>(t: DataType<V>, v: Value<V>, buf: seq<Byte>, offset: nat)
    requires Lawful(t) && Fits(t, v) && EncodesFully(t, v) && Stands(buf, offset, Encode(t, v).value)
    ensures Decode(t, buf, offset) == v
    decreases t, 0
  {
    match t
    case Scalar(c) => assert c.accepts(v);
    case Structure(ms) =>
      assert v.elements[0..] == v.elements && [] + Zeros(TotalLength(ms)) == Zeros(TotalLength(ms));
      EncodesMembers(ms, v.elements, v.elements, 0, []);
      assert [] + MemberBytes(ms, v.elements) == MemberBytes(ms, v.elements);
      MembersReadBack(ms, v.elements, buf, offset);
    case Array(e, count) =>
      ElementsEncode(e, count, v.elements);
      assert [] + Zeros(ByteLength(e) * count) == Zeros(ByteLength(e) * count);
      EncodesElements(e, count, v.elements, 0, ByteLength(e) * count);
      ElementsReadBack(e, v.elements, buf, offset, count);
      assert v.elements[..count] == v.elements;
  }

  /** Arbitrarily nested types round-trip at any offset. */
  lemma RoundTrip<V(!new)>(t: DataType<V>, v: Value<V>, pre: seq<Byte>, post: seq<Byte>)
    requires Lawful(t) && Fits(t, v)
    ensures Encode(t, v).Ok? && |Encode(t, v).value| == ByteLength(t)
    ensures Decode(t, pre + Encode(t, v).value + post, |pre|) == v
  {
    EncodesFits(t, v);
    ReadsBackAt(t, v, pre + Encode(t, v).value + post, |pre|);
  }

  // ---- Reading looks at the type's own bytes only ----

  lemma SlicePart(a: seq<Byte>, i: nat, b: seq<Byte>, j: nat, n: nat, k: nat, m: nat)
    requires SameSlice(a, i, b, j, n) && k + m <= n
    ensures SameSlice(a, i + k, b, j + k, m)
  {
    Within(a, i, i + n, k, k + m);
    Within(b, j, j + n, k, k + m);
  }

  lemma {:induction false} MembersLocal<V(!new)>(ms: seq<DataType<V>>, a: seq<Byte>, i: nat, b: seq<Byte>, j: nat)
    requires AllLawful(ms) && SameSlice(a, i, b, j, TotalLength(ms))
    ensures DecodeMembers(ms, a, i) == DecodeMembers(ms, b, j)
    decreases ms
  {
    if ms != [] {
      var n := ByteLength(ms[0]);
      SlicePart(a, i, b, j, TotalLength(ms), 0, n);
      SlicePart(a, i, b, j, TotalLength(ms), n, TotalLength(ms[1..]));
      DecodeIsLocal(ms[0], a, i, b, j);
      MembersLocal(ms[1..], a, i + n, b, j + n);
    }
  }

  lemma {:induction false} ElementsLocal<V(!new)>(e: DataType<V>, a: seq<Byte>, i: nat, b: seq<Byte>, j: nat, n: nat)
    requires Lawful(e) && SameSlice(a, i, b, j, ByteLength(e) * n)
    ensures DecodeElements(e, a, i, n) == DecodeElements(e, b, j, n)
    decreases e, 1, n
  {
    if n > 0 {
      var len := ByteLength(e);
      OneLess(len, n);
      SlicePart(a, i, b, j, len * n, 0, len * (n - 1));
      SlicePart(a, i, b, j, len * n, (n - 1) * len, len);
      DecodeIsLocal(e, a, i + (n - 1) * len, b, j + (n - 1) * len);
      ElementsLocal(e, a, i, b, j, n - 1);
    }
  }

  /** Decoding looks at the type's own bytes only, wherever they stand. */
  lemma {:induction false} DecodeIsLocal<V(!new)>(t: DataType<V>, a: seq<Byte>, i: nat, b: seq<Byte>, j: nat)
    requires Lawful(t) && SameSlice(a, i, b, j, ByteLength(t))
    ensures Decode(t, a, i) == Decode(t, b, j)
    decreases t, 0
  {
    match t
    case Scalar(c) =>
    case Structure(ms) => MembersLocal(ms, a, i, b, j);
    case Array(e, count) => ElementsLocal(e, a, i, b, j, count);
  }

  // ---- Encoding fills the type's length ----

  lemma {:induction false} MembersKeepLength<V>(ms: seq<DataType<V>>, vs: seq<Value<V>>, i: nat, buf: seq<Byte>, offset: nat)
    ensures var r := EncodeMembers(ms, vs, i, buf, offset); r.Ok? ==> |r.value| == |buf|
    decreases ms
  {
    if ms != [] {
      var b := Encode(ms[0], ElementAt(vs, i));
      if b.Ok? {
        MembersKeepLength(ms[1..], vs, i + 1, Place(buf, b.value, offset), offset + ByteLength(ms[0]));
      }
    }
  }

  lemma {:induction false} ElementsKeepLength<V>(e: DataType<V>, count: nat, vs: seq<Value<V>>, i: nat, buf: seq<Byte>)
    ensures var r := EncodeElements(e, count, vs, i, buf); r.Ok? ==> |r.value| == |buf|
    decreases |vs| - i
  {
    if i < count && i < |vs| {
      var b := Encode(e, vs[i]);
      if b.Ok? {
        ElementsKeepLength(e, count, vs, i + 1, Place(buf, b.value, i * ByteLength(e)));
      }
    }
  }

  /** Whatever is encoded, meant for the type or not, fills exactly the type's length. */
  lemma EncodingFills<V(!new)>(t: DataType<V>, v: Value<V>)
    requires Lawful(t)
    ensures Encode(t, v).Ok? ==> |Encode(t, v).value| == ByteLength(t)
  {
    match t
    case Scalar(c) => assert c.encode(v).Ok? ==> |c.encode(v).value| == c.size;
    case Structure(ms) =>
      if v.Many? {
        MembersKeepLength(ms, v.elements, 0, Zeros(TotalLength(ms)), 0);
      }
    case Array(e, count) =>
      if v.Many? {
        ElementsKeepLength(e, count, v.elements, 0, Zeros(ByteLength(e) * count));
      }
  }
}
