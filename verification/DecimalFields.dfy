/** Zoned and packed decimals as the scalars of records, structures and arrays: the laws these ask for hold. */
module DecimalFields {
  import opened Bytes
  import opened Digits
  import opened Outcome
  import opened Decimals
  import opened DecimalTheorems
  import opened DataTypes

  /** `String(value)`; the text of a list is left empty here. */
  function TextOf(v: Value<string>): (s: string) {
    match v
    case Undefined => "undefined"
    case Null => "null"
    case Single(s) => s
    case Many(_) => ""
  }

  function EncodeZoned(f: Format, text: string): (b: seq<Byte>) {
    ZonedBytes(DigitString(f, text), IsNegative(text))
  }

  function EncodePacked(f: Format, text: string): (b: seq<Byte>) {
    PackedBytes(DigitString(f, text), IsNegative(text))
  }

  function DigitsIn(s: string): (r: string) {
    if s == [] then [] else (if IsDigit(s[0]) then [s[0]] else []) + DigitsIn(s[1..])
  }

  /** The numeral of a number of up to the field's digits, with the field's decimals; zero only unsigned. */
  predicate IsNumeral(f: Format, s: string) {
    var x := ValueOf(DigitsIn(s));
    x < Pow10(f.digits) && s == DecimalText(IsNegative(s), x, f.decimals)
  }

  /** The zoned converter, meant for numerals. */
  function ZonedCodec(f: Format): (c: Codec<string>) {
    Codec(f.digits, (v: Value<string>) => Ok(EncodeZoned(f, TextOf(v))), (buf: seq<Byte>, offset: nat) => Single(DecodeZoned(f, buf, offset)),
          (v: Value<string>) => v.Single? && IsNumeral(f, v.v))
  }

  /** The packed converter, meant for numerals with an odd number of digits, and for zero. */
  predicate IsPackedNumeral(f: Format, s: string) {
    IsNumeral(f, s) && (f.digits % 2 == 1 || ValueOf(DigitsIn(s)) == 0)
  }

  function PackedCodec(f: Format): (c: Codec<string>) {
    Codec(f.digits / 2 + 1, (v: Value<string>) => Ok(EncodePacked(f, TextOf(v))), (buf: seq<Byte>, offset: nat) => Single(DecodePacked(f, buf, offset)),
          (v: Value<string>) => v.Single? && IsPackedNumeral(f, v.v))
  }

  function ByteFrom(buf: seq<Byte>, offset: nat, i: nat): (b: Byte) {
    At(buf, offset + i)
  }

  /** The same bytes stand at two places. */
  ghost predicate SameBytes(a: seq<Byte>, oa: nat, b: seq<Byte>, ob: nat, n: nat) {
    forall i: nat | i < n :: ByteFrom(a, oa, i) == ByteFrom(b, ob, i)
  }

  lemma SliceSame(a: seq<Byte>, i: nat, b: seq<Byte>, j: nat, n: nat)
    requires SameSlice(a, i, b, j, n)
    ensures SameBytes(a, i, b, j, n)
  {
    forall k: nat | k < n ensures ByteFrom(a, i, k) == ByteFrom(b, j, k) {
      assert a[i..i + n][k] == b[j..j + n][k];
    }
  }

  lemma StandsSame(buf: seq<Byte>, offset: nat, data: seq<Byte>)
    requires Stands(buf, offset, data)
    ensures SameBytes(buf, offset, data, 0, |data|)
  {
    forall i: nat | i < |data| ensures ByteFrom(buf, offset, i) == ByteFrom(data, 0, i) {
      assert buf[offset..offset + |data|][i] == data[i];
    }
  }

  // ---- Zoned ----

  lemma {:induction false} ZonedDigitsSame(a: seq<Byte>, oa: nat, b: seq<Byte>, ob: nat, n: nat, m: nat)
    requires SameBytes(a, oa, b, ob, m) && n <= m
    ensures ZonedDigits(a, oa, n) == ZonedDigits(b, ob, n)
  {
    if n > 0 {
      ZonedDigitsSame(a, oa, b, ob, n - 1, m);
      assert ByteFrom(a, oa, n - 1) == ByteFrom(b, ob, n - 1);
    }
  }

  lemma ZonedSame(f: Format, a: seq<Byte>, oa: nat, b: seq<Byte>, ob: nat)
    requires SameBytes(a, oa, b, ob, f.digits)
    ensures DecodeZoned(f, a, oa) == DecodeZoned(f, b, ob)
  {
    hide Render;
    ZonedDigitsSame(a, oa, b, ob, f.digits, f.digits);
    assert ByteFrom(a, oa, f.digits - 1) == ByteFrom(b, ob, f.digits - 1);
  }

  lemma ZonedIsLawful(f: Format)
    ensures Lawful(Scalar(ZonedCodec(f)))
  {
    hide DecodeZoned, EncodeZoned, IsNumeral;
    var c := ZonedCodec(f);
    assert KeepsValues(c) by {
      ZonedLength(f);
    }
    assert ReadsBack(c) by {
      forall v: Value<string>, buf: seq<Byte>, offset: nat | c.accepts(v) && c.encode(v).Ok? && Stands(buf, offset, c.encode(v).value)
        ensures c.decode(buf, offset) == v
      {
        ZonedLength(f);
        ZonedTakesNumerals(f, v.v);
        StandsSame(buf, offset, EncodeZoned(f, v.v));
        ZonedSame(f, buf, offset, EncodeZoned(f, v.v), 0);
      }
    }
    assert IsLocal(c) by {
      forall a: seq<Byte>, i: nat, b: seq<Byte>, j: nat | SameSlice(a, i, b, j, c.size) ensures c.decode(a, i) == c.decode(b, j) {
        SliceSame(a, i, b, j, c.size);
        ZonedSame(f, a, i, b, j);
      }
    }
  }

  lemma ZonedLength(f: Format)
    ensures forall s: string :: |EncodeZoned(f, s)| == f.digits
  {}

  // ---- Packed ----

  lemma {:induction false} PackedDigitsSame(a: seq<Byte>, oa: nat, b: seq<Byte>, ob: nat, len: nat, n: nat)
    requires SameBytes(a, oa, b, ob, len) && n <= len
    ensures PackedDigits(a, oa, len, n) == PackedDigits(b, ob, len, n)
  {
    hide NibbleText;
    if n > 0 {
      PackedDigitsSame(a, oa, b, ob, len, n - 1);
      assert ByteFrom(a, oa, n - 1) == ByteFrom(b, ob, n - 1);
    }
  }

  lemma PackedSame(f: Format, a: seq<Byte>, oa: nat, b: seq<Byte>, ob: nat)
    requires SameBytes(a, oa, b, ob, f.digits / 2 + 1)
    ensures DecodePacked(f, a, oa) == DecodePacked(f, b, ob)
  {
    hide Render, PackedDigits;
    var len := f.digits / 2 + 1;
    PackedDigitsSame(a, oa, b, ob, len, len);
    assert ByteFrom(a, oa, len - 1) == ByteFrom(b, ob, len - 1);
  }

  lemma PackedIsLawful(f: Format)
    ensures Lawful(Scalar(PackedCodec(f)))
  {
    hide DecodePacked, EncodePacked, IsNumeral;
    var c := PackedCodec(f);
    assert KeepsValues(c) by {
      PackedLength(f);
    }
    assert ReadsBack(c) by {
      forall v: Value<string>, buf: seq<Byte>, offset: nat | c.accepts(v) && c.encode(v).Ok? && Stands(buf, offset, c.encode(v).value)
        ensures c.decode(buf, offset) == v
      {
        PackedLength(f);
        PackedTakesNumerals(f, v.v);
        StandsSame(buf, offset, EncodePacked(f, v.v));
        PackedSame(f, buf, offset, EncodePacked(f, v.v), 0);
      }
    }
    assert IsLocal(c) by {
      forall a: seq<Byte>, i: nat, b: seq<Byte>, j: nat | SameSlice(a, i, b, j, c.size) ensures c.decode(a, i) == c.decode(b, j) {
        SliceSame(a, i, b, j, c.size);
        PackedSame(f, a, i, b, j);
      }
    }
  }

  lemma PackedLength(f: Format)
    ensures forall s: string :: |EncodePacked(f, s)| == f.digits / 2 + 1
  {
    hide PackedBytes, DigitString;
  }

  // ---- What the converters are meant for ----

  lemma {:induction false} ValueOfFixedText(x: nat, n: nat)
    requires x < Pow10(n)
    ensures ValueOf(FixedText(x, n)) == x
  {
    if n > 0 {
      ValueOfFixedText(x / 10, n - 1);
      assert FixedText(x, n)[..n - 1] == FixedText(x / 10, n - 1);
    }
  }

  /** Every numeral the decoder can print is one the encoder reads exactly. */
  lemma NumeralScales(x: nat, d: nat)
    ensures var whole, fraction := if d > 0 then NatText(Floor(x, Pow10(d))) else NatText(x), if d > 0 then FixedText(Rest(x, Pow10(d)), d) else "";
            DecimalParts(whole, d > 0, fraction) && Unsigned(x, d) == whole + (if d > 0 then "." + fraction else "") && Scaled(whole, fraction, d) == x
  {
    hide Floor, Rest;
    var p := Pow10(d);
    if d > 0 {
      var whole, fraction := NatText(Floor(x, p)), FixedText(Rest(x, p), d);
      assert Unsigned(x, d) == whole + ("." + fraction);
      NumeralValue(x, d, whole, fraction);
      ScaledExactly(whole, fraction, d, x);
    } else {
      ValueOfNatText(x);
      assert NatText(x) + "" == NatText(x);
      ScaledExactly(NatText(x), "", d, x);
    }
  }

  lemma NumeralValue(x: nat, d: nat, whole: string, fraction: string)
    requires whole == NatText(Floor(x, Pow10(d))) && fraction == FixedText(Rest(x, Pow10(d)), d)
    ensures ValueOf(whole + fraction) == x
  {
    hide Floor, Rest;
    ValueOfConcat(whole, fraction);
    ValueOfNatText(Floor(x, Pow10(d)));
    ValueOfFixedText(Rest(x, Pow10(d)), d);
    FloorAndRest(x, Pow10(d));
  }

  lemma ScaledExactly(whole: string, fraction: string, d: nat, x: nat)
    requires ValueOf(whole + fraction) == x && |fraction| == d
    ensures Scaled(whole, fraction, d) == x
  {
    DivModUnique(x * Pow10(d), x, Pow10(d), 0);
  }

  lemma SmallRemainder(x: nat, p: nat)
    requires x < p
    ensures x % p == x
  {}

  /** A zoned field gives every numeral back. */
  lemma ZonedTakesNumerals(f: Format, s: string)
    requires IsNumeral(f, s)
    ensures DecodeZoned(f, EncodeZoned(f, s), 0) == s
  {
    hide Scaled, DecodeZoned, ZonedBytes, DigitString, Unsigned, Floor, Rest, DigitsIn;
    var x, d := ValueOf(DigitsIn(s)), f.decimals;
    var signed := IsNegative(s) && x != 0;
    var whole, fraction := if d > 0 then NatText(Floor(x, Pow10(d))) else NatText(x), if d > 0 then FixedText(Rest(x, Pow10(d)), d) else "";
    NumeralScales(x, d);
    SignedNumeral(signed, whole, d > 0, fraction, Unsigned(x, d));
    SmallRemainder(x, Pow10(f.digits));
    ZonedRoundTrip(f, signed, whole, d > 0, fraction, [], []);
    var b := EncodeZoned(f, s);
    assert [] + b + [] == b;
  }

  /** A packed field gives a numeral back exactly when its number of digits is odd, or the value is zero. */
  lemma PackedTakesNumerals(f: Format, s: string)
    requires IsNumeral(f, s)
    ensures DecodePacked(f, EncodePacked(f, s), 0) == s <==> IsPackedNumeral(f, s)
  {
    hide Scaled, DecodePacked, PackedBytes, DigitString, Unsigned, Floor, Rest, DigitsIn;
    var x, d := ValueOf(DigitsIn(s)), f.decimals;
    var signed := IsNegative(s) && x != 0;
    var whole, fraction := if d > 0 then NatText(Floor(x, Pow10(d))) else NatText(x), if d > 0 then FixedText(Rest(x, Pow10(d)), d) else "";
    NumeralScales(x, d);
    SignedNumeral(signed, whole, d > 0, fraction, Unsigned(x, d));
    SmallRemainder(x, Pow10(f.digits));
    PackedRoundTrip(f, signed, whole, d > 0, fraction, [], []);
    PackedRightIff(f, signed, x);
    var b := EncodePacked(f, s);
    assert [] + b + [] == b;
  }

  lemma {:induction false} DigitsInJoin(a: string, b: string)
    ensures DigitsIn(a + b) == DigitsIn(a) + DigitsIn(b)
  {
    if a == [] {
      assert a + b == b;
    } else {
      hide IsDigit;
      assert (a + b)[1..] == a[1..] + b;
      DigitsInJoin(a[1..], b);
      var first := if IsDigit(a[0]) then [a[0]] else [];
      assert first + (DigitsIn(a[1..]) + DigitsIn(b)) == (first + DigitsIn(a[1..])) + DigitsIn(b);
    }
  }

  lemma {:induction false} DigitsInDigits(s: string)
    requires AllDigits(s)
    ensures DigitsIn(s) == s
  {
    if s != [] {
      DigitsInDigits(s[1..]);
      assert s == [s[0]] + s[1..];
    }
  }

  lemma MarkHasNoDigits(c: char, s: string)
    requires !IsDigit(c)
    ensures DigitsIn([c] + s) == DigitsIn(s)
  {
    assert ([c] + s)[1..] == s;
  }

  /** The digits of a printed number are its value, whatever the sign. */
  lemma NumeralDigits(negative: bool, x: nat, d: nat)
    ensures ValueOf(DigitsIn(DecimalText(negative, x, d))) == x
  {
    hide Scaled, DigitsIn, Floor, Rest, NatText, FixedText;
    var whole, fraction := if d > 0 then NatText(Floor(x, Pow10(d))) else NatText(x), if d > 0 then FixedText(Rest(x, Pow10(d)), d) else "";
    NumeralScales(x, d);
    if d > 0 {
      NumeralValue(x, d, whole, fraction);
      assert Unsigned(x, d) == whole + (['.'] + fraction);
      MarkHasNoDigits('.', fraction);
      DigitsInJoin(whole, ['.'] + fraction);
      DigitsInDigits(fraction);
    } else {
      ValueOfNatText(x);
      assert whole + [] == whole;
    }
    DigitsInDigits(whole);
    MarkHasNoDigits('-', Unsigned(x, d));
  }

  lemma StartsWithDigit(x: nat, d: nat)
    ensures !IsNegative(Unsigned(x, d))
  {
    hide NatText, FixedText, Floor, Rest;
    var whole := if d > 0 then NatText(Floor(x, Pow10(d))) else NatText(x);
    assert Unsigned(x, d)[0] == whole[0] && IsDigit(whole[0]);
  }

  /** Every number of up to the field's digits has a numeral. */
  lemma EveryNumberHasNumeral(f: Format, negative: bool, x: nat)
    requires x < Pow10(f.digits)
    ensures IsNumeral(f, DecimalText(negative, x, f.decimals))
  {
    hide DigitsIn;
    NumeralDigits(negative, x, f.decimals);
    StartsWithDigit(x, f.decimals);
  }

  lemma SignedNumeral(signed: bool, whole: string, point: bool, fraction: string, text: string)
    requires text == whole + (if point then "." + fraction else "")
    ensures DecimalString(signed, whole, point, fraction) == if signed then "-" + text else text
  {
    var tail := if point then "." + fraction else "";
    assert "-" + whole + tail == "-" + (whole + tail);
    assert "" + whole + tail == whole + tail;
  }
}
