/**
 Record formats and records: src/record/RecordFormat.js and src/record/Record.js. `RecordSpec` gives
 the meaning of every operation on the buffer and the null set; the classes are proved to follow it.
 */
module RecordSpec {
  import opened Bytes
  import opened Outcome
  import opened Text
  import opened DataTypes

  datatype Field<!V> = Field(name: string, dataType: DataType<V>, allowNull: bool)

  /** The offset of the `k`-th field: the lengths of the fields before it. */
  function OffsetOf<V>(fs: seq<Field<V>>, k: nat): (n: nat)
    requires k <= |fs|
  {
    if k == 0 then 0 else OffsetOf(fs, k - 1) + ByteLength(fs[k - 1].dataType)
  }

  /** The index a folded name stands for: that of the last field with the name. */
  function IndexOfName<V>(fs: seq<Field<V>>, folded: string): (k: Option<nat>)
    ensures k.Some? ==> k.value < |fs| && Upper(fs[k.value].name) == folded
    ensures k.None? ==> forall i | 0 <= i < |fs| :: Upper(fs[i].name) != folded
  {
    if fs == [] then None
    else if Upper(fs[|fs| - 1].name) == folded then Some(|fs| - 1)
    else IndexOfName(fs[..|fs| - 1], folded)
  }

  /** A record's buffer, and the folded names of its null fields. */
  datatype State = State(buffer: seq<Byte>, nulls: set<string>)

  function GetField<V>(fs: seq<Field<V>>, s: State, name: string): (r: Result<Value<V>>) {
    var u := Upper(name);
    if u in s.nulls then Ok(Null) else
      var k := IndexOfName(fs, u);
      if k.None? then Err(UnknownField) else Ok(Decode(fs[k.value].dataType, s.buffer, OffsetOf(fs, k.value)))
  }

  /** As many of the encoded bytes as the field has. */
  function Cut(data: seq<Byte>, n: nat): (r: seq<Byte>)
    ensures |r| <= n && |r| <= |data|
  {
    if |data| <= n then data else data[..n]
  }

  /** `setField`: a null is noted where the field allows it; anything else clears the note first, and may then fail. */
  function SetField<V>(fs: seq<Field<V>>, s: State, name: string, v: Value<V>): (r: (Result<()>, State)) {
    var u := Upper(name);
    var k := IndexOfName(fs, u);
    if v.Null? && k.None? then (Err(UnknownField), s)
    else if v.Null? && fs[k.value].allowNull then (Ok(()), s.(nulls := s.nulls + {u}))
    else
      var cleared := s.(nulls := s.nulls - {u});
      if k.None? then (Err(UnknownField), cleared) else
        var t := fs[k.value].dataType;
        var b := Encode(t, v);
        if b.Err? then (Err(b.error), cleared)
        else (Ok(()), cleared.(buffer := Place(s.buffer, Cut(b.value, ByteLength(t)), OffsetOf(fs, k.value))))
  }

  function SetFieldNull(s: State, name: string): (r: State) {
    s.(nulls := s.nulls + {Upper(name)})
  }

  /** One byte a field: 0xF1 for null, 0xF0 otherwise. */
  function NullMap<V>(fs: seq<Field<V>>, nulls: set<string>): (m: seq<Byte>)
  {
    seq(|fs|, i requires 0 <= i < |fs| => if Upper(fs[i].name) in nulls then 0xF1 else 0xF0)
  }

  /** The null set after the first `n` bytes of a map have been applied. */
  function Applied<V>(fs: seq<Field<V>>, m: seq<Byte>, nulls: set<string>, n: nat): (r: set<string>)
    requires n <= |fs| && n <= |m|
  {
    if n == 0 then nulls
    else Applied(fs, m, nulls, n - 1) + if m[n - 1] == 0xF1 then {Upper(fs[n - 1].name)} else {}
  }

  function Lesser(a: nat, b: nat): (m: nat) {
    if a < b then a else b
  }
}

module Record {
  import opened Bytes
  import opened Outcome
  import opened Text
  import opened DataTypes
  import opened RecordSpec

  /** The index holds every folded name, at its last field. */
  ghost predicate NamesMatch<V>(fs: seq<Field<V>>, index: map<string, nat>) {
    && (forall u: string :: u in index <==> IndexOfName(fs, u).Some?)
    && (forall u: string | u in index :: IndexOfName(fs, u) == Some(index[u]))
  }

  /** The offsets are the sums of the lengths before them, and the record is as long as all fields. */
  ghost predicate OffsetsMatch<V>(fs: seq<Field<V>>, offsets: seq<nat>, recordLength: nat) {
    && |offsets| == |fs| && (forall k | 0 <= k < |fs| :: offsets[k] == OffsetOf(fs, k))
    && recordLength == OffsetOf(fs, |fs|)
  }

  lemma NamesMatchMore<V>(fs: seq<Field<V>>, index: map<string, nat>, field: Field<V>)
    requires NamesMatch(fs, index)
    ensures NamesMatch(fs + [field], index[Upper(field.name) := |fs|])
  {
    hide IndexOfName;
    NamesStay(fs, field);
  }

  lemma OffsetsMatchMore<V>(fs: seq<Field<V>>, offsets: seq<nat>, recordLength: nat, field: Field<V>)
    requires OffsetsMatch(fs, offsets, recordLength)
    ensures OffsetsMatch(fs + [field], offsets + [recordLength], recordLength + ByteLength(field.dataType))
  {
    hide OffsetOf;
    OffsetsStay(fs, field);
  }

  class RecordFormat<V> {
    var fields: seq<Field<V>>
    var nameIndex: map<string, nat>
    var offsets: seq<nat>
    var recordLength: nat
    var hasNullFields: bool

    ghost predicate Valid()
      reads this
    {
      && NamesMatch(fields, nameIndex)
      && OffsetsMatch(fields, offsets, recordLength)
      && (hasNullFields <==> exists k | 0 <= k < |fields| :: fields[k].allowNull)
    }

    constructor ()
      ensures Valid() && fields == []
    {
      fields, nameIndex, offsets, recordLength, hasNullFields := [], map[], [], 0, false;
    }

    method AddFieldDescription(field: Field<V>)
      requires Valid()
      modifies this
      ensures Valid() && fields == old(fields) + [field]
    {
      hide NamesMatch, OffsetsMatch;
      var idx := |fields|;
      NamesMatchMore(fields, nameIndex, field);
      OffsetsMatchMore(fields, offsets, recordLength, field);
      fields := fields + [field];
      nameIndex := nameIndex[Upper(field.name) := idx];
      offsets := offsets + [recordLength];
      recordLength := recordLength + ByteLength(field.dataType);
      if field.allowNull {
        hasNullFields := true;
        assert fields[idx].allowNull;
      }
      assert forall k | 0 <= k < idx :: fields[k] == old(fields)[k];
    }

    method GetFieldIndex(name: string) returns (k: int)
      requires Valid()
      ensures k == match IndexOfName(fields, Upper(name)) case Some(i) => i case None => -1
    {
      k := if Upper(name) in nameIndex then nameIndex[Upper(name)] else -1;
    }

    method GetFieldDescription(name: string) returns (r: Result<Field<V>>)
      requires Valid()
      ensures match IndexOfName(fields, Upper(name)) case Some(i) => r == Ok(fields[i]) case None => r == Err(UnknownField)
    {
      if Upper(name) !in nameIndex {
        return Err(UnknownField);
      }
      r := Ok(fields[nameIndex[Upper(name)]]);
    }

    method GetFieldOffset(name: string) returns (r: Result<nat>)
      requires Valid()
      ensures match IndexOfName(fields, Upper(name)) case Some(i) => r == Ok(OffsetOf(fields, i)) case None => r == Err(UnknownField)
    {
      if Upper(name) !in nameIndex {
        return Err(UnknownField);
      }
      r := Ok(offsets[nameIndex[Upper(name)]]);
    }
  }

  lemma {:induction false} OffsetsStay<V>(fs: seq<Field<V>>, field: Field<V>)
    ensures forall k | 0 <= k <= |fs| :: OffsetOf(fs + [field], k) == OffsetOf(fs, k)
    ensures OffsetOf(fs + [field], |fs| + 1) == OffsetOf(fs, |fs|) + ByteLength(field.dataType)
  {
    forall k | 0 <= k <= |fs| ensures OffsetOf(fs + [field], k) == OffsetOf(fs, k) {
      OffsetStays(fs, field, k);
    }
  }

  lemma {:induction false} OffsetStays<V>(fs: seq<Field<V>>, field: Field<V>, k: nat)
    requires k <= |fs|
    ensures OffsetOf(fs + [field], k) == OffsetOf(fs, k)
  {
    if k > 0 {
      OffsetStays(fs, field, k - 1);
    }
  }

  lemma NamesStay<V>(fs: seq<Field<V>>, field: Field<V>)
    ensures forall u: string :: IndexOfName(fs + [field], u) == if u == Upper(field.name) then Some(|fs|) else IndexOfName(fs, u)
  {
    assert (fs + [field])[..|fs|] == fs;
  }

  class Record<V> {
    const format: RecordFormat<V>
    var buffer: array<Byte>
    var nullFields: set<string>

    ghost predicate Valid()
      reads this, format
    {
      format.Valid()
    }

    ghost function Snapshot(): (s: State)
      reads this, buffer
    {
      State(buffer[..], nullFields)
    }

    /** A record over as many zero bytes as the format needs. */
    constructor (format: RecordFormat<V>)
      requires format.Valid()
      ensures this.format == format && Valid() && nullFields == {}
      ensures fresh(buffer) && buffer[..] == Zeros(format.recordLength)
    {
      this.format, nullFields := format, {};
      buffer := new Byte[format.recordLength](_ => 0);
    }

    /** A record over given bytes, which are not copied. */
    constructor Over(format: RecordFormat<V>, data: array<Byte>)
      requires format.Valid()
      ensures this.format == format && Valid() && nullFields == {} && buffer == data
    {
      this.format, nullFields, buffer := format, {}, data;
    }

    method GetField(name: string) returns (r: Result<Value<V>>)
      requires Valid()
      ensures r == RecordSpec.GetField(format.fields, Snapshot(), name)
    {
      if Upper(name) in nullFields {
        return Ok(Null);
      }
      var desc := format.GetFieldDescription(name);
      if desc.Err? {
        return Err(desc.error);
      }
      var offset := format.GetFieldOffset(name);
      var v := FromBuffer(desc.value.dataType, buffer[..], offset.value);
      r := Ok(v);
    }

    method SetField(name: string, value: Value<V>) returns (r: Result<()>)
      requires Valid()
      modifies this, buffer
      ensures Valid() && buffer == old(buffer)
      ensures (r, Snapshot()) == RecordSpec.SetField(format.fields, old(Snapshot()), name, value)
    {
      if value.Null? {
        var d := format.GetFieldDescription(name);
        if d.Err? {
          return Err(d.error);
        }
        if d.value.allowNull {
          nullFields := nullFields + {Upper(name)};
          return Ok(());
        }
      }
      nullFields := nullFields - {Upper(name)};
      var desc := format.GetFieldDescription(name);
      if desc.Err? {
        return Err(desc.error);
      }
      var offset := format.GetFieldOffset(name);
      var encoded := ToBuffer(desc.value.dataType, value);
      if encoded.Err? {
        return Err(encoded.error);
      }
      CopyInto(buffer, Cut(encoded.value, ByteLength(desc.value.dataType)), offset.value);
      r := Ok(());
    }

    method IsFieldNull(name: string) returns (b: bool)
      ensures b == (Upper(name) in nullFields)
    {
      b := Upper(name) in nullFields;
    }

    method SetFieldNull(name: string)
      modifies this`nullFields
      ensures Snapshot() == RecordSpec.SetFieldNull(old(Snapshot()), name)
    {
      nullFields := nullFields + {Upper(name)};
    }

    method GetNullFieldMap() returns (m: array<Byte>)
      requires Valid()
      ensures fresh(m) && m[..] == NullMap(format.fields, nullFields)
    {
      var count := |format.fields|;
      m := new Byte[count](_ => 0xF0);
      for i := 0 to count
        invariant forall k | 0 <= k < count :: m[k] == if k < i && Upper(format.fields[k].name) in nullFields then 0xF1 else 0xF0
      {
        if Upper(format.fields[i].name) in nullFields {
          m[i] := 0xF1;
        }
      }
    }

    method ApplyNullFieldMap(m: seq<Byte>)
      requires Valid()
      modifies this`nullFields
      ensures nullFields == Applied(format.fields, m, old(nullFields), Lesser(|m|, |format.fields|))
    {
      for i := 0 to Lesser(|m|, |format.fields|)
        invariant nullFields == Applied(format.fields, m, old(nullFields), i)
      {
        if m[i] == 0xF1 {
          nullFields := nullFields + {Upper(format.fields[i].name)};
        }
      }
    }
  }
}

/** A record behaves like a map from field names to values or null, over every sequence of operations. */
module RecordTheorems {
  import opened Bytes
  import opened Outcome
  import opened Text
  import opened DataTypes
  import opened DataTypeTheorems
  import opened RecordSpec

  datatype Op<V> = Set(name: string, value: Value<V>) | SetNull(name: string)

  function Perform<V>(fs: seq<Field<V>>, s: State, op: Op<V>): (s': State) {
    match op
    case Set(name, v) => SetField(fs, s, name, v).1
    case SetNull(name) => SetFieldNull(s, name)
  }

  function Run<V>(fs: seq<Field<V>>, s: State, ops: seq<Op<V>>): (s': State)
    decreases |ops|
  {
    if ops == [] then s else Run(fs, Perform(fs, s, ops[0]), ops[1..])
  }

  // ---- The simple form: one cell a field ----

  /** The value last stored in a field, and whether the field is null. */
  datatype Cell<V> = Cell(value: Value<V>, isNull: bool)

  /** What is read back right after a value has been encoded; the value itself if it is meant for the type. */
  function Stored<V>(t: DataType<V>, v: Value<V>): (x: Value<V>)
    requires Encode(t, v).Ok?
  {
    Decode(t, Encode(t, v).value, 0)
  }

  /** What an operation does to the cell of a field: nothing if it names another field. */
  function CellAfter<V>(f: Field<V>, c: Cell<V>, op: Op<V>): (c': Cell<V>) {
    if Upper(op.name) != Upper(f.name) then c
    else match op
      case SetNull(_) => c.(isNull := true)
      case Set(_, v) =>
        if v.Null? && f.allowNull then c.(isNull := true)
        else if Encode(f.dataType, v).Err? then c.(isNull := false)
        else Cell(Stored(f.dataType, v), false)
  }

  function CellAfterAll<V>(f: Field<V>, c: Cell<V>, ops: seq<Op<V>>): (c': Cell<V>)
    decreases |ops|
  {
    if ops == [] then c else CellAfterAll(f, CellAfter(f, c, ops[0]), ops[1..])
  }

  // ---- Refinement ----

  ghost predicate Distinct<V>(fs: seq<Field<V>>) {
    forall i, j | 0 <= i < j < |fs| :: Upper(fs[i].name) != Upper(fs[j].name)
  }

  ghost predicate LawfulFields<V(!new)>(fs: seq<Field<V>>) {
    forall k | 0 <= k < |fs| :: Lawful(fs[k].dataType)
  }

  /** The record shows this cell for its `k`-th field. */
  ghost predicate Shows<V>(fs: seq<Field<V>>, s: State, k: nat, c: Cell<V>)
    requires k < |fs|
  {
    && Decode(fs[k].dataType, s.buffer, OffsetOf(fs, k)) == c.value
    && (Upper(fs[k].name) in s.nulls <==> c.isNull)
  }

  lemma {:induction false} OffsetsAscend<V>(fs: seq<Field<V>>, i: nat, j: nat)
    requires i < j <= |fs|
    ensures OffsetOf(fs, i) + ByteLength(fs[i].dataType) <= OffsetOf(fs, j)
  {
    if i < j - 1 {
      OffsetsAscend(fs, i, j - 1);
    }
  }

  lemma {:induction false} FindsField<V>(fs: seq<Field<V>>, k: nat, folded: string)
    requires Distinct(fs) && k < |fs| && Upper(fs[k].name) == folded
    ensures IndexOfName(fs, folded) == Some(k)
  {
    forall i | 0 <= i < |fs| && i != k ensures Upper(fs[i].name) != folded {
      if i < k {
        assert Upper(fs[i].name) != Upper(fs[k].name);
      } else {
        assert Upper(fs[k].name) != Upper(fs[i].name);
      }
    }
  }

  lemma PlaceStands(buf: seq<Byte>, data: seq<Byte>, at: nat)
    requires at + |data| <= |buf|
    ensures Stands(Place(buf, data, at), at, data)
  {}

  lemma PlaceLeaves(buf: seq<Byte>, data: seq<Byte>, at: nat, offset: nat, n: nat)
    requires offset + n <= |buf| && (offset + n <= at || at + |data| <= offset)
    ensures SameSlice(Place(buf, data, at), offset, buf, offset, n)
  {}

  /** A value meant for the type is stored as it is. */
  lemma StoredIsValue<V(!new)>(t: DataType<V>, v: Value<V>)
    requires Lawful(t) && Fits(t, v)
    ensures Encode(t, v).Ok? && Stored(t, v) == v
  {
    RoundTrip(t, v, [], []);
    assert [] + Encode(t, v).value + [] == Encode(t, v).value;
  }

  /** Writing whatever can be encoded changes what the field's own slice shows, and no other. */
  lemma WriteShows<V(!new)>(fs: seq<Field<V>>, buf: seq<Byte>, k: nat, v: Value<V>, j: nat)
    requires LawfulFields(fs) && k < |fs| && j < |fs| && Encode(fs[k].dataType, v).Ok? && |buf| >= OffsetOf(fs, |fs|)
    ensures var b := Encode(fs[k].dataType, v).value;
            Decode(fs[j].dataType, Place(buf, Cut(b, ByteLength(fs[k].dataType)), OffsetOf(fs, k)), OffsetOf(fs, j))
            == if j == k then Stored(fs[k].dataType, v) else Decode(fs[j].dataType, buf, OffsetOf(fs, j))
  {
    var t := fs[k].dataType;
    EncodingFills(t, v);
    var b, at := Encode(t, v).value, OffsetOf(fs, k);
    OffsetsAscend(fs, k, |fs|);
    OffsetsAscend(fs, j, |fs|);
    if j == k {
      PlaceStands(buf, b, at);
      DecodeIsLocal(t, Place(buf, b, at), at, b, 0);
    } else {
      if j < k {
        OffsetsAscend(fs, j, k);
      } else {
        OffsetsAscend(fs, k, j);
      }
      PlaceLeaves(buf, b, at, OffsetOf(fs, j), ByteLength(fs[j].dataType));
      DecodeIsLocal(fs[j].dataType, Place(buf, b, at), OffsetOf(fs, j), buf, OffsetOf(fs, j));
    }
  }

  lemma StepRefines<V(!new)>(fs: seq<Field<V>>, s: State, op: Op<V>, j: nat, c: Cell<V>)
    requires Distinct(fs) && LawfulFields(fs) && j < |fs| && |s.buffer| >= OffsetOf(fs, |fs|)
    requires Shows(fs, s, j, c)
    ensures Shows(fs, Perform(fs, s, op), j, CellAfter(fs[j], c, op)) && |Perform(fs, s, op).buffer| == |s.buffer|
  {
    if op.Set? {
      SetRefines(fs, s, op.name, op.value, j, c);
    }
  }

  lemma SetRefines<V(!new)>(fs: seq<Field<V>>, s: State, name: string, v: Value<V>, j: nat, c: Cell<V>)
    requires Distinct(fs) && LawfulFields(fs) && j < |fs| && |s.buffer| >= OffsetOf(fs, |fs|)
    requires Shows(fs, s, j, c)
    ensures var s' := SetField(fs, s, name, v).1;
            Shows(fs, s', j, CellAfter(fs[j], c, Set(name, v))) && |s'.buffer| == |s.buffer|
  {
    hide Stored;
    var k := IndexOfName(fs, Upper(name));
    if Upper(name) == Upper(fs[j].name) {
      FindsField(fs, j, Upper(name));
    }
    if k.Some? && !(v.Null? && fs[k.value].allowNull) && Encode(fs[k.value].dataType, v).Ok? {
      WriteShows(fs, s.buffer, k.value, v, j);
      if j != k.value {
        FindsField(fs, k.value, Upper(name));
      }
    }
  }

  /**
   Over every sequence of operations, failing ones and values the field alters included, each field
   shows what its cell does: the value last stored, or null.
   */
  lemma {:induction false} RunRefines<V(!new)>(fs: seq<Field<V>>, s: State, ops: seq<Op<V>>, j: nat, c: Cell<V>)
    requires Distinct(fs) && LawfulFields(fs) && j < |fs| && |s.buffer| >= OffsetOf(fs, |fs|)
    requires Shows(fs, s, j, c)
    ensures Shows(fs, Run(fs, s, ops), j, CellAfterAll(fs[j], c, ops))
    decreases |ops|
  {
    hide Shows, LawfulFields, Distinct, Perform, CellAfter, OffsetOf;
    if ops != [] {
      StepRefines(fs, s, ops[0], j, c);
      RunRefines(fs, Perform(fs, s, ops[0]), ops[1..], j, CellAfter(fs[j], c, ops[0]));
    }
  }

  /** What `getField` returns after any operations, under any spelling of the name. */
  lemma RecordIsMap<V(!new)>(fs: seq<Field<V>>, s: State, ops: seq<Op<V>>, j: nat, name: string)
    requires Distinct(fs) && LawfulFields(fs) && j < |fs| && |s.buffer| >= OffsetOf(fs, |fs|)
    requires Upper(name) == Upper(fs[j].name)
    ensures var start := Cell(Decode(fs[j].dataType, s.buffer, OffsetOf(fs, j)), Upper(name) in s.nulls);
            var c := CellAfterAll(fs[j], start, ops);
            GetField(fs, Run(fs, s, ops), name) == Ok(if c.isNull then Null else c.value)
  {
    var start := Cell(Decode(fs[j].dataType, s.buffer, OffsetOf(fs, j)), Upper(name) in s.nulls);
    RunRefines(fs, s, ops, j, start);
    FindsField(fs, j, Upper(name));
  }

  // ---- Unknown names ----

  /** The operation notes the folded name as null. */
  predicate Notes<V>(op: Op<V>, u: string) {
    op.SetNull? && Upper(op.name) == u
  }

  /** The operation takes such a note back: a `setField` of anything but null. */
  predicate Clears<V>(op: Op<V>, u: string) {
    op.Set? && Upper(op.name) == u && !op.value.Null?
  }

  predicate NeverCleared<V>(ops: seq<Op<V>>, u: string) {
    forall j | 0 <= j < |ops| :: !Clears(ops[j], u)
  }

  /** The name is noted at the start, or by some operation, and nothing takes the note back afterwards. */
  predicate StaysNoted<V>(noted: bool, ops: seq<Op<V>>, u: string) {
    || (noted && NeverCleared(ops, u))
    || exists i | 0 <= i < |ops| :: Notes(ops[i], u) && NeverCleared(ops[i..], u)
  }

  /** A name the format does not have: every `setField` fails, and only these two kinds of operation change its note. */
  lemma UnknownNameStep<V>(fs: seq<Field<V>>, s: State, op: Op<V>, u: string)
    requires IndexOfName(fs, u).None?
    ensures u in Perform(fs, s, op).nulls <==> Notes(op, u) || (u in s.nulls && !Clears(op, u))
    ensures op.Set? && Upper(op.name) == u ==> SetField(fs, s, op.name, op.value).0 == Err(UnknownField)
  {}

  lemma NeverClearedStep<V>(ops: seq<Op<V>>, u: string)
    requires ops != []
    ensures NeverCleared(ops, u) <==> !Clears(ops[0], u) && NeverCleared(ops[1..], u)
  {
    hide Clears;
    if !Clears(ops[0], u) && NeverCleared(ops[1..], u) {
      forall j | 0 <= j < |ops| ensures !Clears(ops[j], u) {
        if j > 0 {
          assert ops[j] == ops[1..][j - 1];
        }
      }
    }
  }

  lemma StaysNotedStep<V>(noted: bool, ops: seq<Op<V>>, u: string)
    requires ops != []
    ensures StaysNoted(noted, ops, u) <==> StaysNoted(Notes(ops[0], u) || (noted && !Clears(ops[0], u)), ops[1..], u)
  {
    var rest := ops[1..];
    NeverClearedStep(ops, u);
    hide Clears, NeverCleared;
    assert ops[0..] == ops;
    if i :| 0 <= i < |ops| && Notes(ops[i], u) && NeverCleared(ops[i..], u) {
      if i > 0 {
        assert rest[i - 1] == ops[i] && rest[i - 1..] == ops[i..];
      }
    }
    if k :| 0 <= k < |rest| && Notes(rest[k], u) && NeverCleared(rest[k..], u) {
      assert ops[k + 1] == rest[k] && ops[k + 1..] == rest[k..];
    }
    if Notes(ops[0], u) && NeverCleared(rest, u) {
      NoteIsNoClear(ops[0], u);
    }
  }

  lemma NoteIsNoClear<V>(op: Op<V>, u: string)
    requires Notes(op, u)
    ensures !Clears(op, u)
  {}

  lemma {:induction false} UnknownNoted<V>(fs: seq<Field<V>>, s: State, ops: seq<Op<V>>, u: string)
    requires IndexOfName(fs, u).None?
    ensures u in Run(fs, s, ops).nulls <==> StaysNoted(u in s.nulls, ops, u)
    decreases |ops|
  {
    hide IndexOfName, Perform, Notes, Clears;
    if ops != [] {
      UnknownNameStep(fs, s, ops[0], u);
      StaysNotedStep(u in s.nulls, ops, u);
      UnknownNoted(fs, Perform(fs, s, ops[0]), ops[1..], u);
    }
  }

  /**
   After any operations, a name the format does not have reads as null if some `setFieldNull` noted it
   and no `setField` of anything but null came after that (or it was noted from the start); it is the
   error of an unknown field in every other case.
   */
  lemma UnknownNameIff<V>(fs: seq<Field<V>>, s: State, ops: seq<Op<V>>, name: string)
    requires IndexOfName(fs, Upper(name)).None?
    ensures GetField(fs, Run(fs, s, ops), name)
            == if StaysNoted(Upper(name) in s.nulls, ops, Upper(name)) then Ok(Null) else Err(UnknownField)
  {
    UnknownNoted(fs, s, ops, Upper(name));
  }

  /** The shortest such run: a name that was an error reads as null once `setFieldNull` was given it. */
  lemma UnknownFieldCanBeNull<V>(fs: seq<Field<V>>, s: State, name: string)
    requires IndexOfName(fs, Upper(name)).None? && Upper(name) !in s.nulls
    ensures GetField(fs, s, name) == Err(UnknownField)
    ensures GetField(fs, Run(fs, s, [SetNull(name)]), name) == Ok(Null)
  {
    var ops := [SetNull(name)];
    assert Notes(ops[0], Upper(name)) && NeverCleared(ops[0..], Upper(name));
    UnknownNameIff(fs, s, ops, name);
  }

  // ---- Null maps ----

  lemma {:induction false} AppliedIs<V>(fs: seq<Field<V>>, m: seq<Byte>, nulls: set<string>, n: nat, u: string)
    requires n <= |fs| && n <= |m|
    ensures u in Applied(fs, m, nulls, n) <==> u in nulls || exists i | 0 <= i < n :: m[i] == 0xF1 && Upper(fs[i].name) == u
  {
    if n > 0 {
      AppliedIs(fs, m, nulls, n - 1, u);
    }
  }

  /** The byte of a field says whether it is null, and nothing else. */
  lemma NullMapSays<V>(fs: seq<Field<V>>, nulls: set<string>, i: nat)
    requires i < |fs|
    ensures |NullMap(fs, nulls)| == |fs|
    ensures Upper(fs[i].name) in nulls <==> NullMap(fs, nulls)[i] == 0xF1
    ensures Upper(fs[i].name) !in nulls <==> NullMap(fs, nulls)[i] == 0xF0
  {}

  /** The null map of a record, applied to a fresh record, makes exactly the same fields null. */
  lemma NullMapReproduces<V>(fs: seq<Field<V>>, nulls: set<string>, u: string)
    ensures var m := NullMap(fs, nulls);
            u in Applied(fs, m, {}, |fs|) <==> u in nulls && exists i | 0 <= i < |fs| :: Upper(fs[i].name) == u
  {
    var m := NullMap(fs, nulls);
    AppliedIs(fs, m, {}, |fs|, u);
    if i :| 0 <= i < |fs| && Upper(fs[i].name) == u && u in nulls {
      assert m[i] == 0xF1;
    }
  }
}
