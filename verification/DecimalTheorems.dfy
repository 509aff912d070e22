/** What encoding and decoding a decimal string means, for every string, precision and position. */
module DecimalTheorems {
  import opened Bytes
  import opened Digits
  import opened Text
  import opened Decimals

  /** The plain numeral of `x / 10^decimals`, with exactly `decimals` fraction digits; zero is printed unsigned. */
  function DecimalText(negative: bool, x: nat, decimals: nat): (s: string) {
    if negative && x != 0 then "-" + Unsigned(x, decimals) else Unsigned(x, decimals)
  }

  function Unsigned(x: nat, d: nat): (s: string)
    ensures s != []
  {
    if d > 0 then NatText(Floor(x, Pow10(d))) + "." + FixedText(Rest(x, Pow10(d)), d) else NatText(x)
  }

  /** A decimal string: an optional sign, integer digits, and possibly a point and fraction digits. */
  function DecimalString(negative: bool, whole: string, point: bool, fraction: string): (s: string) {
    (if negative then "-" else "") + whole + (if point then "." + fraction else "")
  }

  /** `floor(|s| * 10^decimals)` for the number `whole.fraction`. */
  function Scaled(whole: string, fraction: string, decimals: nat): (x: nat) {
    Floor(ValueOf(whole + fraction) * Pow10(decimals), Pow10(|fraction|))
  }

  // ---- Encoding keeps the value modulo 10^digits ----

  lemma PadEndScales(whole: string, fraction: string, d: nat)
    requires |fraction| <= d
    ensures ValueOf(whole + PadEnd(fraction, d)) == Scaled(whole, fraction, d)
  {
    var zeros := Repeat('0', d - |fraction|);
    assert PadEnd(fraction, d) == fraction + zeros;
    assert whole + PadEnd(fraction, d) == (whole + fraction) + zeros;
    ValueOfConcat(whole + fraction, zeros);
    ValueOfZeros(|zeros|);
    Pow10Add(|zeros|, |fraction|);
    FloorOfScaled(ValueOf(whole + fraction), Pow10(|zeros|), Pow10(|fraction|), Pow10(d));
  }

  lemma FloorOfScaled(v: nat, q: nat, p: nat, qp: nat)
    requires p > 0 && qp == q * p
    ensures Floor(v * qp, p) == v * q
  {
    assert v * qp == (v * q) * p;
    DivModUnique(v * qp, v * q, p, 0);
  }

  lemma CutFractionScales(whole: string, fraction: string, d: nat)
    requires d < |fraction|
    ensures ValueOf(whole + fraction[..d]) == Scaled(whole, fraction, d)
  {
    var front, back := whole + fraction[..d], fraction[d..];
    assert whole + fraction == front + back;
    ValueOfConcat(front, back);
    ValueBound(back);
    Pow10Add(|back|, d);
    FloorOfCut(ValueOf(whole + fraction), ValueOf(front), ValueOf(back), Pow10(|back|), Pow10(d), Pow10(|fraction|));
  }

  lemma FloorOfCut(all: nat, v: nat, r: nat, p: nat, q: nat, pq: nat)
    requires all == v * p + r && r < p && q > 0 && pq == p * q
    ensures pq > 0 && Floor(all * q, pq) == v
  {
    ProductBelow(r, p, q);
    Distribute(v, p, r, q);
    DivModUnique(all * q, v, pq, r * q);
  }

  lemma Distribute(v: nat, p: nat, r: nat, q: nat)
    ensures (v * p + r) * q == v * (p * q) + r * q
  {}

  lemma ProductBelow(r: nat, p: nat, q: nat)
    requires r < p && q > 0
    ensures r * q < p * q
  {}

  lemma LeadingZerosKeepValue(k: nat, s: string)
    ensures ValueOf(Repeat('0', k) + s) == ValueOf(s)
  {
    ValueOfConcat(Repeat('0', k), s);
    ValueOfZeros(k);
  }

  ghost predicate DecimalParts(whole: string, point: bool, fraction: string) {
    AllDigits(whole) && AllDigits(fraction) && (point || fraction == [])
  }

  /** The encoder's own reading of its argument: sign, integer part and fraction. */
  lemma PartsAreFound(negative: bool, whole: string, point: bool, fraction: string)
    requires DecimalParts(whole, point, fraction)
    ensures var value := DecimalString(negative, whole, point, fraction);
            IsNegative(value) == negative &&
            forall f: Format :: DigitString(f, value) == IntegerDigits(f, whole) + FractionDigits(f, fraction)
  {
    hide IntegerDigits, FractionDigits;
    var value := DecimalString(negative, whole, point, fraction);
    var abs := whole + (if point then "." + fraction else "");
    assert !negative ==> value == abs;
    assert negative ==> value[1..] == abs && value[0] == '-';
    FindAfter(whole, '.', if point then "." + fraction else "");
    assert abs[..|whole|] == whole;
    assert point ==> abs[|whole| + 1..] == fraction;
  }

  lemma FractionScales(whole: string, fraction: string, f: Format)
    ensures ValueOf(whole + FractionDigits(f, fraction)) == Scaled(whole, fraction, f.decimals)
  {
    if |fraction| <= f.decimals {
      PadEndScales(whole, fraction, f.decimals);
      assert FractionDigits(f, fraction) == PadEnd(fraction, f.decimals);
    } else {
      CutFractionScales(whole, fraction, f.decimals);
      assert FractionDigits(f, fraction) == fraction[..f.decimals];
    }
  }

  /** The integer part before it is cut: the digits behind zeros. */
  lemma PaddedInteger(whole: string, width: nat) returns (k: nat)
    ensures PadStart(if whole == [] then "0" else whole, width) == Repeat('0', k) + whole
  {
    if whole == [] {
      k := if width == 0 then 1 else width;
      assert Repeat('0', width) + "" == Repeat('0', width);
      assert width > 0 ==> Repeat('0', width) == Repeat('0', width - 1) + "0";
      assert Repeat('0', 1) == "0";
    } else {
      k := if |whole| < width then width - |whole| else 0;
    }
  }

  /** The digits written denote the number scaled by `10^decimals`, rounded down, modulo `10^digits`. */
  lemma DigitsDenote(f: Format, negative: bool, whole: string, point: bool, fraction: string)
    requires DecimalParts(whole, point, fraction)
    ensures var s := DigitString(f, DecimalString(negative, whole, point, fraction));
            AllDigits(s) && ValueOf(s) == Scaled(whole, fraction, f.decimals) % Pow10(f.digits)
  {
    hide DigitString, IntegerDigits, FractionDigits, Scaled, DecimalString;
    PartsAreFound(negative, whole, point, fraction);
    FractionScales(whole, fraction, f);
    FractionIsDigits(f, fraction);
    IntegerAndFraction(f, whole, FractionDigits(f, fraction));
  }

  lemma FractionIsDigits(f: Format, fraction: string)
    requires AllDigits(fraction)
    ensures AllDigits(FractionDigits(f, fraction))
  {}

  lemma IntegerAndFraction(f: Format, whole: string, cut: string)
    requires AllDigits(whole) && AllDigits(cut) && |cut| == f.decimals
    ensures AllDigits(IntegerDigits(f, whole) + cut)
    ensures ValueOf(IntegerDigits(f, whole) + cut) == ValueOf(whole + cut) % Pow10(f.digits)
  {
    var k := PaddedInteger(whole, f.digits - f.decimals);
    CutBehindZeros(k, whole, cut, f.digits);
  }

  lemma CutBehindZeros(k: nat, whole: string, cut: string, n: nat)
    requires AllDigits(whole) && AllDigits(cut) && |cut| <= n <= k + |whole| + |cut|
    ensures var padded := Repeat('0', k) + whole;
            var s := padded[|padded| - (n - |cut|)..] + cut;
            AllDigits(s) && ValueOf(s) == ValueOf(whole + cut) % Pow10(n)
  {
    var padded := Repeat('0', k) + whole;
    var all := Repeat('0', k) + (whole + cut);
    assert padded[|padded| - (n - |cut|)..] + cut == all[|all| - n..];
    assert all == all[..|all| - n] + all[|all| - n..];
    ValueSplit(all[..|all| - n], all[|all| - n..]);
    LeadingZerosKeepValue(k, whole + cut);
  }

  // ---- Rendering a digit string prints its value ----

  lemma {:induction false} ZeroDigits(s: string)
    requires AllDigits(s)
    ensures (forall i | 0 <= i < |s| :: s[i] == '0') <==> ValueOf(s) == 0
  {
    if s != [] {
      var n := |s| - 1;
      ZeroDigits(s[..n]);
      assert ValueOf(s) == 0 <==> ValueOf(s[..n]) == 0 && s[n] == '0';
      assert (forall i | 0 <= i < |s| :: s[i] == '0') <==> (forall i | 0 <= i < n :: s[..n][i] == '0') && s[n] == '0';
    }
  }

  lemma NatTextZero(x: nat)
    ensures NatText(x) == "0" <==> x == 0
    ensures NatText(x)[0] == '0' && |NatText(x)| == 1 ==> x == 0
  {
    if x < 10 {
      assert NatText(x) == [DigitChar(x)];
    } else {
      assert |NatText(x)| > 1;
    }
  }

  lemma ZeroTextIff(q: nat, back: string, d: nat)
    requires AllDigits(back) && |back| == d
    ensures var text := if d > 0 then NatText(q) + "." + back else NatText(q);
            IsZeroText(text) <==> q == 0 && ValueOf(back) == 0
  {
    NatTextZero(q);
    ZeroDigits(back);
    var front := NatText(q);
    if d > 0 {
      var text := front + "." + back;
      assert text[|front|] == '.';
      if q == 0 {
        assert front == "0" && text[..2] == "0." && text[2..] == back;
        assert forall i | 0 <= i < |back| :: text[i + 2] == back[i];
        assert forall i | 2 <= i < |text| :: text[i] == back[i - 2];
      } else if |front| > 1 {
        assert text[1] == front[1] && IsDigit(front[1]);
        assert text[..2][1] != '.';
      } else {
        assert text[0] == front[0] != '0';
        assert text[..2][0] != '0';
      }
    } else {
      assert forall i | 0 <= i < |front| :: IsDigit(front[i]);
      assert |front| > 2 ==> front[..2][1] != '.';
    }
  }

  lemma QuotientZero(v: nat, q: nat, p: nat, r: nat)
    requires v == q * p + r && p > 0
    ensures v == 0 <==> q == 0 && r == 0
  {
    if q > 0 {
      OneMore(q, p);
    }
  }

  lemma RenderPrintsValue(f: Format, s: string, negative: bool)
    requires AllDigits(s) && |s| >= f.decimals
    ensures Render(f, s, negative) == DecimalText(negative, ValueOf(s), f.decimals)
  {
    hide IsZeroText, Unsigned, ValueOf, Pow10, NatText, Canonical;
    var d := f.decimals;
    var front, back := s[..|s| - d], s[|s| - d..];
    assert s == front + back;
    ValueZeroIff(front, back);
    CanonicalIsNatText(front);
    ZeroTextIff(ValueOf(front), back, d);
    UnsignedOfParts(front, back);
    assert d == 0 ==> front == s;
  }

  lemma ValueZeroIff(front: string, back: string)
    ensures ValueOf(front + back) == 0 <==> ValueOf(front) == 0 && ValueOf(back) == 0
  {
    hide ValueOf, Pow10;
    ValueOfConcat(front, back);
    QuotientZero(ValueOf(front + back), ValueOf(front), Pow10(|back|), ValueOf(back));
  }

  lemma UnsignedOfParts(front: string, back: string)
    requires AllDigits(back)
    ensures Unsigned(ValueOf(front + back), |back|)
         == if |back| > 0 then NatText(ValueOf(front)) + "." + back else NatText(ValueOf(front))
  {
    hide Floor, Rest;
    ValueSplit(front, back);
    FixedTextOfValue(back);
    assert |back| == 0 ==> front + back == front;
  }

  // ---- Zoned ----

  lemma NibbleOfDigit(c: char)
    requires IsDigit(c)
    ensures NibbleText(DigitOf(c)) == [c]
  {}

  /** Decoding, wherever the field stands, gives back the digits encoded. */
  lemma {:induction false} ZonedDigitsBack(pre: seq<Byte>, s: string, negative: bool, post: seq<Byte>, n: nat)
    requires AllDigits(s) && n <= |s|
    ensures ZonedDigits(pre + ZonedBytes(s, negative) + post, |pre|, n) == s[..n]
  {
    if n > 0 {
      ZonedDigitsBack(pre, s, negative, post, n - 1);
      var b := At(pre + ZonedBytes(s, negative) + post, |pre| + n - 1);
      assert b == ZonedBytes(s, negative)[n - 1];
      assert b % 16 == DigitOf(s[n - 1]);
      NibbleOfDigit(s[n - 1]);
      assert s[..n] == s[..n - 1] + [s[n - 1]];
    }
  }

  /**
   Zoned: for every decimal string, encoding it and decoding at any position prints
   sign * (floor(|s| * 10^decimals) mod 10^digits) / 10^decimals.
   */
  lemma ZonedRoundTrip(f: Format, negative: bool, whole: string, point: bool, fraction: string, pre: seq<Byte>, post: seq<Byte>)
    requires DecimalParts(whole, point, fraction)
    ensures var value := DecimalString(negative, whole, point, fraction);
            var buf := pre + ZonedBytes(DigitString(f, value), IsNegative(value)) + post;
            DecodeZoned(f, buf, |pre|)
            == DecimalText(negative, Scaled(whole, fraction, f.decimals) % Pow10(f.digits), f.decimals)
  {
    var value := DecimalString(negative, whole, point, fraction);
    PartsAreFound(negative, whole, point, fraction);
    DigitsDenote(f, negative, whole, point, fraction);
    var s := DigitString(f, value);
    ZonedDecodes(f, s, negative, pre, post);
  }

  lemma ZonedDecodes(f: Format, s: string, negative: bool, pre: seq<Byte>, post: seq<Byte>)
    requires AllDigits(s) && |s| == f.digits
    ensures var buf := pre + ZonedBytes(s, negative) + post;
            DecodeZoned(f, buf, |pre|)
            == DecimalText(negative, ValueOf(s), f.decimals)
  {
    var buf := pre + ZonedBytes(s, negative) + post;
    ZonedDigitsBack(pre, s, negative, post, f.digits);
    assert s[..f.digits] == s;
    assert At(buf, |pre| + f.digits - 1) == ZonedBytes(s, negative)[f.digits - 1];
    RenderPrintsValue(f, s, negative);
  }

  /** Every zone is 0xF, but the last one of a negative value 0xD; behind the zone stands the digit. */
  lemma ZonesAre(s: string, negative: bool, i: nat)
    requires i < |s|
    ensures |ZonedBytes(s, negative)| == |s|
    ensures ZonedBytes(s, negative)[i] % 16 == DigitOf(s[i])
    ensures ZonedBytes(s, negative)[i] / 16 == if i == |s| - 1 && negative then 0xD else 0xF
  {}

  /** For one: 123 and -123 in three digits, as bytes. */
  lemma HundredTwentyThree()
    ensures ZonedBytes("123", false) == [0xF1, 0xF2, 0xF3] && ZonedBytes("123", true) == [0xF1, 0xF2, 0xD3]
    ensures PackedBytes("123", false) == [0x12, 0x3F] && PackedBytes("123", true) == [0x12, 0x3D]
  {
    assert PackedNibbles("123", false) == [1, 2, 3, 0xF] && PackedNibbles("123", true) == [1, 2, 3, 0xD];
  }

  // ---- Packed ----

  /** The digits a packed field holds: those given, the last one twice when their number is even. */
  function PackedTextOf(s: string): (t: string)
    requires s != []
  {
    if |s| % 2 == 0 then s + [s[|s| - 1]] else s
  }

  lemma PackedByteIs(s: string, negative: bool, j: nat)
    requires s != [] && AllDigits(s) && j <= |s| / 2
    ensures var t := PackedTextOf(s);
            PackedBytes(s, negative)[j] / 16 == DigitOf(t[2 * j]) &&
            PackedBytes(s, negative)[j] % 16 == if j == |s| / 2 then (if negative then 0x0D else 0x0F) else DigitOf(t[2 * j + 1])
  {
    var n, t := PackedNibbles(s, negative), PackedTextOf(s);
    assert n[2 * j] == DigitOf(t[2 * j]);
    if j < |s| / 2 {
      assert n[2 * j + 1] == DigitOf(t[2 * j + 1]);
    }
  }

  lemma {:induction false} PackedDigitsBack(buf: seq<Byte>, offset: nat, s: string, negative: bool, t: string, half: nat, upTo: nat)
    requires s != [] && AllDigits(s) && t == PackedTextOf(s) && half == |s| / 2 && upTo <= half
    requires forall j | 0 <= j < half :: At(buf, offset + j) == PackedBytes(s, negative)[j]
    ensures PackedDigits(buf, offset, half + 1, upTo) == t[..2 * upTo]
  {
    if upTo > 0 {
      hide PackedBytes, PackedDigits;
      PackedDigitsBack(buf, offset, s, negative, t, half, upTo - 1);
      var j := upTo - 1;
      PackedByteIs(s, negative, j);
      assert At(buf, offset + j) == PackedBytes(s, negative)[j];
      TwoNibbles(buf, offset, half + 1, j, t);
    }
  }

  lemma TwoNibbles(buf: seq<Byte>, offset: nat, len: nat, j: nat, t: string)
    requires j + 1 < len && 2 * j + 1 < |t| && IsDigit(t[2 * j]) && IsDigit(t[2 * j + 1])
    requires At(buf, offset + j) / 16 == DigitOf(t[2 * j]) && At(buf, offset + j) % 16 == DigitOf(t[2 * j + 1])
    requires PackedDigits(buf, offset, len, j) == t[..2 * j]
    ensures PackedDigits(buf, offset, len, j + 1) == t[..2 * (j + 1)]
  {
    NibbleOfDigit(t[2 * j]);
    NibbleOfDigit(t[2 * j + 1]);
    PackedStep(buf, offset, len, j);
    assert t[..2 * j + 2] == t[..2 * j] + [t[2 * j]] + [t[2 * j + 1]];
  }

  lemma PackedStep(buf: seq<Byte>, offset: nat, len: nat, j: nat)
    requires j + 1 < len
    ensures var b := At(buf, offset + j);
            PackedDigits(buf, offset, len, j + 1) == PackedDigits(buf, offset, len, j) + NibbleText(b / 16) + NibbleText(b % 16)
  {}

  lemma LastNibble(buf: seq<Byte>, offset: nat, len: nat, t: string)
    requires len > 0 && |t| == 2 * len - 1 && IsDigit(t[2 * len - 2])
    requires At(buf, offset + len - 1) / 16 == DigitOf(t[2 * len - 2])
    requires PackedDigits(buf, offset, len, len - 1) == t[..2 * len - 2]
    ensures PackedDigits(buf, offset, len, len) == t
  {
    NibbleOfDigit(t[2 * len - 2]);
    assert t == t[..2 * len - 2] + [t[2 * len - 2]];
  }

  lemma PackedDigitsAll(buf: seq<Byte>, offset: nat, s: string, negative: bool, half: nat)
    requires s != [] && AllDigits(s) && half == |s| / 2
    requires forall j | 0 <= j <= half :: At(buf, offset + j) == PackedBytes(s, negative)[j]
    ensures PackedDigits(buf, offset, half + 1, half + 1) == PackedTextOf(s)
    ensures (At(buf, offset + half) % 16 == 0x0D) == negative
  {
    hide PackedDigits, PackedBytes;
    var t := PackedTextOf(s);
    PackedDigitsBack(buf, offset, s, negative, t, half, half);
    PackedByteIs(s, negative, half);
    assert At(buf, offset + half) == PackedBytes(s, negative)[half];
    LastNibble(buf, offset, half + 1, t);
  }

  /** What decoding a packed field of a digit string prints, with the field's own sign. */
  lemma PackedDecodes(f: Format, s: string, negative: bool, pre: seq<Byte>, post: seq<Byte>)
    requires AllDigits(s) && |s| == f.digits
    ensures DecodePacked(f, pre + PackedBytes(s, negative) + post, |pre|)
            == DecimalText(negative, ValueOf(PackedTextOf(s)), f.decimals)
  {
    PackedLies(pre, PackedBytes(s, negative), post);
    PackedDecodesAt(f, pre + PackedBytes(s, negative) + post, |pre|, s, negative, f.digits / 2);
  }

  lemma PackedLies(pre: seq<Byte>, b: seq<Byte>, post: seq<Byte>)
    ensures forall j | 0 <= j < |b| :: At(pre + b + post, |pre| + j) == b[j]
  {}

  lemma PackedDecodesAt(f: Format, buf: seq<Byte>, offset: nat, s: string, negative: bool, half: nat)
    requires AllDigits(s) && |s| == f.digits && half == f.digits / 2
    requires forall j | 0 <= j <= half :: At(buf, offset + j) == PackedBytes(s, negative)[j]
    ensures DecodePacked(f, buf, offset) == DecimalText(negative, ValueOf(PackedTextOf(s)), f.decimals)
  {
    PackedDigitsAll(buf, offset, s, negative, half);
    DecodePackedIs(f, buf, offset, PackedTextOf(s), negative, half);
    PackedTextIsDigits(s);
    RenderPrintsValue(f, PackedTextOf(s), negative);
  }

  lemma PackedTextIsDigits(s: string)
    requires s != [] && AllDigits(s)
    ensures AllDigits(PackedTextOf(s)) && |PackedTextOf(s)| >= |s|
  {}

  lemma DecodePackedIs(f: Format, buf: seq<Byte>, offset: nat, t: string, negative: bool, half: nat)
    requires half == f.digits / 2 && |t| >= f.digits
    requires PackedDigits(buf, offset, half + 1, half + 1) == t
    requires (At(buf, offset + half) % 16 == 0x0D) == negative
    ensures DecodePacked(f, buf, offset) == Render(f, t, negative)
  {}

  /** The value a packed field of `n` digits holds for a value `x`: for even `n` its last digit is repeated. */
  function PackedValue(x: nat, n: nat): (v: nat) {
    if n % 2 == 0 then 10 * x + x % 10 else x
  }

  lemma PackedTextDenotes(s: string)
    requires s != [] && AllDigits(s)
    ensures ValueOf(PackedTextOf(s)) == PackedValue(ValueOf(s), |s|)
  {
    if |s| % 2 == 0 {
      var t := PackedTextOf(s);
      assert t[..|t| - 1] == s;
      LastDigitOf(s);
    }
  }

  lemma LastDigitOf(s: string)
    requires s != []
    ensures ValueOf(s) % 10 == DigitOf(s[|s| - 1])
  {
    TenFold(ValueOf(s[..|s| - 1]), DigitOf(s[|s| - 1]));
  }

  lemma TenFold(a: nat, d: nat)
    requires d < 10
    ensures (10 * a + d) % 10 == d
  {}

  /** Packed: as zoned for every odd number of digits; for an even number the last digit stands twice. */
  lemma PackedRoundTrip(f: Format, negative: bool, whole: string, point: bool, fraction: string, pre: seq<Byte>, post: seq<Byte>)
    requires DecimalParts(whole, point, fraction)
    ensures var value := DecimalString(negative, whole, point, fraction);
            DecodePacked(f, pre + PackedBytes(DigitString(f, value), IsNegative(value)) + post, |pre|)
            == DecimalText(negative, PackedValue(Scaled(whole, fraction, f.decimals) % Pow10(f.digits), f.digits), f.decimals)
  {
    var value := DecimalString(negative, whole, point, fraction);
    PartsAreFound(negative, whole, point, fraction);
    DigitsDenote(f, negative, whole, point, fraction);
    var s := DigitString(f, value);
    PackedDecodes(f, s, negative, pre, post);
    PackedTextDenotes(s);
  }

  // ---- When packed is right ----

  lemma {:induction false} NatTextInjective(x: nat, y: nat)
    requires NatText(x) == NatText(y)
    ensures x == y
  {
    ValueOfNatText(x);
    ValueOfNatText(y);
  }

  /** Printed values are equal only if the values are. */
  lemma DecimalTextInjective(negative: bool, x: nat, y: nat, d: nat)
    requires DecimalText(negative, x, d) == DecimalText(negative, y, d)
    ensures x == y
  {
    var tx, ty := Unsigned(x, d), Unsigned(y, d);
    assert DecimalText(negative, x, d) == if negative && x != 0 then "-" + tx else tx;
    assert DecimalText(negative, y, d) == if negative && y != 0 then "-" + ty else ty;
    UnsignedStart(x, d);
    UnsignedStart(y, d);
    assert ("-" + tx)[1..] == tx && ("-" + ty)[1..] == ty;
    assert tx == ty;
    UnsignedInjective(x, y, d);
  }

  lemma UnsignedStart(x: nat, d: nat)
    ensures IsDigit(Unsigned(x, d)[0])
  {
    hide Floor, Rest;
    var a := if d > 0 then NatText(Floor(x, Pow10(d))) else NatText(x);
    assert Unsigned(x, d)[0] == a[0];
  }

  lemma UnsignedInjective(x: nat, y: nat, d: nat)
    requires Unsigned(x, d) == Unsigned(y, d)
    ensures x == y
  {
    if d == 0 {
      NatTextInjective(x, y);
    } else {
      var p := Pow10(d);
      PointTextInjective(Floor(x, p), Rest(x, p), Floor(y, p), Rest(y, p), d);
      FloorAndRest(x, p);
      FloorAndRest(y, p);
    }
  }

  lemma PointTextInjective(q: nat, r: nat, q': nat, r': nat, d: nat)
    requires r < Pow10(d) && r' < Pow10(d)
    requires NatText(q) + "." + FixedText(r, d) == NatText(q') + "." + FixedText(r', d)
    ensures q == q' && r == r'
  {
    var a, b, a', b' := NatText(q), FixedText(r, d), NatText(q'), FixedText(r', d);
    assert |a| == |a'|;
    assert a == (a + "." + b)[..|a|] && a' == (a' + "." + b')[..|a|];
    assert b == (a + "." + b)[|a| + 1..] && b' == (a' + "." + b')[|a| + 1..];
    NatTextInjective(q, q');
    FixedTextInjective(r, r', d);
  }

  /** A packed field gives back the value encoded exactly when its number of digits is odd or the value is zero. */
  lemma PackedRightIff(f: Format, negative: bool, x: nat)
    ensures DecimalText(negative, PackedValue(x, f.digits), f.decimals) == DecimalText(negative, x, f.decimals)
        <==> f.digits % 2 == 1 || x == 0
  {
    if DecimalText(negative, PackedValue(x, f.digits), f.decimals) == DecimalText(negative, x, f.decimals) {
      DecimalTextInjective(negative, PackedValue(x, f.digits), x, f.decimals);
    }
  }
}
