/**
 The text side of src/datatypes/AS400DecFloat.js: reading a number's string into sign, digits and
 exponent, and printing these in plain notation. Printing and reading again keeps the number.
 */
module DecFloatText {
  import opened Digits
  import opened Outcome
  import opened Text

  /** A parsed number; `exp` is `None` where the source gets `NaN` for the exponent. */
  datatype Number = Finite(negative: bool, digits: string, exp: Option<int>) | Infinite(negative: bool) | NotANumber

  // ---- Reading ----

  function LeadingDigits(s: string): (d: string)
    ensures AllDigits(d)
  {
    if s != [] && IsDigit(s[0]) then [s[0]] + LeadingDigits(s[1..]) else []
  }

  /** `parseInt(s, 10)`. */
  function ParseInt(s: string): (r: Option<int>) {
    var t := TrimStart(s);
    var negative := t != [] && t[0] == '-';
    var d := LeadingDigits(if t != [] && (t[0] == '-' || t[0] == '+') then t[1..] else t);
    var v: int := ValueOf(d);
    if d == [] then None else Some(if negative then -v else v)
  }

  /** Where the exponent starts, `search(/[eE]/)`, or the length of the string. */
  function ExponentAt(s: string): (k: nat)
    ensures k <= |s|
  {
    if s == [] || s[0] == 'e' || s[0] == 'E' then 0 else 1 + ExponentAt(s[1..])
  }

  /** Digits and point: the point removed, and the exponent lowered by the digits behind it. */
  function ParseMantissa(negative: bool, mantissa: string, exp: Option<int>): (n: Number) {
    var dot := Find(mantissa, '.');
    if dot < |mantissa| then
      Finite(negative, Canonical(mantissa[..dot] + mantissa[dot + 1..]),
             if exp.Some? then Some(exp.value - (|mantissa| - dot - 1)) else None)
    else
      Finite(negative, Canonical(mantissa), exp)
  }

  function ParseSpecial(s: string): (n: Option<Number>) {
    if s == "Infinity" || s == "+Infinity" then Some(Infinite(false))
    else if s == "-Infinity" then Some(Infinite(true))
    else if s == "NaN" || s == "sNaN" then Some(NotANumber)
    else None
  }

  function ParseFinite(s: string): (n: Number) {
    var negative := s != [] && s[0] == '-';
    var rest := if s != [] && (s[0] == '-' || s[0] == '+') then s[1..] else s;
    var k := ExponentAt(rest);
    ParseMantissa(negative, rest[..k], if k < |rest| then ParseInt(rest[k + 1..]) else Some(0))
  }

  function ParseNumber(str: string): (n: Number) {
    var s := Trim(str);
    if ParseSpecial(s).Some? then ParseSpecial(s).value else ParseFinite(s)
  }

  // ---- Printing ----

  /** Trailing zeros moved from the coefficient into the exponent. */
  function StripTrailing(digits: string, exponent: int): (r: (string, int))
    ensures digits != [] ==> r.0 != []
  {
    if |digits| > 1 && digits[|digits| - 1] == '0' then StripTrailing(digits[..|digits| - 1], exponent + 1)
    else (digits, exponent)
  }

  /** The digits with the point, or the zeros, their exponent asks for. */
  function Plain(digits: string, exponent: int): (s: string)
    requires digits != []
  {
    if exponent >= 0 then digits + Repeat('0', exponent)
    else if exponent + |digits| > 0 then digits[..exponent + |digits|] + "." + digits[exponent + |digits|..]
    else "0." + Repeat('0', -(exponent + |digits|)) + digits
  }

  function Signed(negative: bool, s: string): (r: string) {
    if negative then "-" + s else s
  }

  function FormatText(negative: bool, digits: string, exponent: int): (s: string) {
    var r := StripTrailing(digits, exponent);
    Signed(negative, Plain(Canonical(r.0), r.1))
  }

  method Format(negative: bool, digits: string, exponent: int) returns (r: string)
    ensures r == FormatText(negative, digits, exponent)
  {
    var digits, exponent := digits, exponent;
    ghost var start := StripTrailing(digits, exponent);
    while |digits| > 1 && digits[|digits| - 1] == '0'
      invariant StripTrailing(digits, exponent) == start
      decreases |digits|
    {
      digits := digits[..|digits| - 1];
      exponent := exponent + 1;
    }
    digits := Canonical(digits);
    r := PutPoint(negative, digits, exponent);
  }

  method PutPoint(negative: bool, digits: string, exponent: int) returns (r: string)
    requires digits != []
    ensures r == Signed(negative, Plain(digits, exponent))
  {
    var adjExp := exponent + |digits| - 1;
    if adjExp >= 0 && exponent >= 0 {
      var result := digits + if exponent > 0 then Repeat('0', exponent) else "";
      assert exponent == 0 ==> result == digits + Repeat('0', exponent);
      return Signed(negative, result);
    }
    if adjExp >= 0 {
      var dotPos := adjExp + 1;
      return Signed(negative, digits[..dotPos] + "." + digits[dotPos..]);
    }
    r := Signed(negative, "0." + Repeat('0', -adjExp - 1) + digits);
  }

  // ---- The number denoted ----

  /** `10^e`. */
  function Power(e: int): (p: real)
    ensures p > 0.0
  {
    if e >= 0 then Pow10(e) as real else 1.0 / Pow10(-e) as real
  }

  lemma PowerStep(e: int)
    ensures Power(e + 1) == 10.0 * Power(e)
  {
    if e < -1 {
      InverseTen(Pow10(-e - 1) as real);
    }
  }

  lemma InverseTen(p: real)
    requires p > 0.0
    ensures 1.0 / p == 10.0 * (1.0 / (10.0 * p))
  {}

  /** The unsigned number `digits * 10^exp`. */
  function Magnitude(digits: string, exp: int): (m: real) {
    Product(ValueOf(digits), Power(exp))
  }

  function Product(v: nat, q: real): (m: real) {
    v as real * q
  }

  /** The text denotes this number: it reads as a number with this sign and this magnitude. */
  ghost predicate Denotes(text: string, negative: bool, magnitude: real) {
    IsNumber(ParseNumber(text), negative, magnitude)
  }

  ghost predicate IsNumber(n: Number, negative: bool, magnitude: real) {
    n.Finite? && n.negative == negative && n.exp.Some? && AllDigits(n.digits) && Magnitude(n.digits, n.exp.value) == magnitude
  }

  // ---- Printing keeps the number ----

  lemma {:induction false} StripTrailingKeeps(digits: string, exponent: int)
    requires AllDigits(digits)
    ensures var r := StripTrailing(digits, exponent);
            AllDigits(r.0) && Magnitude(r.0, r.1) == Magnitude(digits, exponent)
  {
    if |digits| > 1 && digits[|digits| - 1] == '0' {
      var front := digits[..|digits| - 1];
      StripTrailingKeeps(front, exponent + 1);
      PowerStep(exponent);
      MoveTenReal(ValueOf(front), Power(exponent));
    }
  }

  lemma MoveTenReal(v: nat, p: real)
    ensures v as real * (10.0 * p) == (10 * v) as real * p
  {}

  lemma CanonicalKeepsValue(s: string)
    requires AllDigits(s)
    ensures ValueOf(Canonical(s)) == ValueOf(s) && AllDigits(Canonical(s)) && Canonical(s) != []
  {
    CanonicalIsNatText(s);
    ValueOfNatText(ValueOf(s));
  }

  lemma {:induction false} NoExponent(s: string)
    requires 'e' !in s && 'E' !in s
    ensures ExponentAt(s) == |s|
  {
    if s != [] {
      NoExponent(s[1..]);
    }
  }

  /** Digits with at most one point, and a sign in front: what the printer makes and the reader reads. */
  ghost predicate PlainText(s: string) {
    s != [] && (forall i | 0 <= i < |s| :: IsDigit(s[i]) || s[i] == '.') && IsDigit(s[0]) && IsDigit(s[|s| - 1])
  }

  lemma NotSpecial(s: string)
    requires s != [] && IsDigit(s[|s| - 1])
    ensures ParseSpecial(s) == None
  {}

  lemma ReadsPlain(negative: bool, s: string)
    requires PlainText(s)
    ensures ParseNumber(Signed(negative, s)) == ParseMantissa(negative, s, Some(0))
  {
    hide ParseSpecial, ParseMantissa, Trim;
    var text := Signed(negative, s);
    assert text[|text| - 1] == s[|s| - 1] && text[0] == if negative then '-' else s[0];
    TrimKeeps(text);
    NotSpecial(text);
    assert negative ==> text[1..] == s;
    NoExponent(s);
    assert s[..|s|] == s;
  }

  lemma DenotesMantissa(negative: bool, s: string, n: Number, magnitude: real)
    requires PlainText(s) && ParseMantissa(negative, s, Some(0)) == n && IsNumber(n, negative, magnitude)
    ensures Denotes(Signed(negative, s), negative, magnitude)
  {
    ReadsPlain(negative, s);
  }

  lemma WholeMagnitude(digits: string, zeros: nat)
    ensures Magnitude(digits + Repeat('0', zeros), 0) == Magnitude(digits, zeros)
  {
    hide Product;
    ValueOfConcat(digits, Repeat('0', zeros));
    ValueOfZeros(zeros);
    WholeProduct(ValueOf(digits), Pow10(zeros), ValueOf(digits + Repeat('0', zeros)));
  }

  lemma WholeProduct(v: nat, p: nat, vp: nat)
    requires vp == v * p
    ensures Product(vp, 1.0) == Product(v, p as real)
  {}

  lemma SameMagnitude(a: string, b: string, exp: int)
    requires ValueOf(a) == ValueOf(b)
    ensures Magnitude(a, exp) == Magnitude(b, exp)
  {}

  lemma ReadsWhole(negative: bool, digits: string, zeros: nat)
    requires AllDigits(digits) && digits != []
    ensures Denotes(Signed(negative, digits + Repeat('0', zeros)), negative, Magnitude(digits, zeros))
  {
    var s := digits + Repeat('0', zeros);
    FindAfter(s, '.', []);
    assert s + [] == s;
    CanonicalKeepsValue(s);
    SameMagnitude(Canonical(s), s, 0);
    WholeMagnitude(digits, zeros);
    DenotesMantissa(negative, s, Finite(negative, Canonical(s), Some(0)), Magnitude(digits, zeros));
  }

  lemma ReadsPoint(negative: bool, whole: string, fraction: string, s: string, digits: string)
    requires AllDigits(whole) && AllDigits(fraction) && whole != [] && fraction != []
    requires s == whole + "." + fraction && digits == whole + fraction
    ensures Denotes(Signed(negative, s), negative, Magnitude(digits, -|fraction|))
  {
    hide Magnitude, ValueOf, Canonical, Denotes;
    FindAfter(whole, '.', "." + fraction);
    assert s == whole + ("." + fraction);
    assert s[..|whole|] == whole && s[|whole| + 1..] == fraction;
    CanonicalKeepsValue(digits);
    SameMagnitude(Canonical(digits), digits, -|fraction|);
    DenotesMantissa(negative, s, Finite(negative, Canonical(digits), Some(-|fraction|)), Magnitude(digits, -|fraction|));
  }

  lemma ReadsPlainDigits(negative: bool, digits: string, exponent: int)
    requires AllDigits(digits) && digits != []
    ensures Denotes(Signed(negative, Plain(digits, exponent)), negative, Magnitude(digits, exponent))
  {
    if exponent >= 0 {
      ReadsWhole(negative, digits, exponent);
    } else if exponent + |digits| > 0 {
      ReadsInside(negative, digits, exponent);
    } else {
      ReadsBehindPoint(negative, digits, exponent);
    }
  }

  lemma ReadsInside(negative: bool, digits: string, exponent: int)
    requires AllDigits(digits) && exponent < 0 < exponent + |digits|
    ensures Denotes(Signed(negative, Plain(digits, exponent)), negative, Magnitude(digits, exponent))
  {
    hide Denotes, Magnitude;
    var k := exponent + |digits|;
    ReadsPoint(negative, digits[..k], digits[k..], Plain(digits, exponent), digits);
  }

  lemma ReadsBehindPoint(negative: bool, digits: string, exponent: int)
    requires AllDigits(digits) && digits != [] && exponent + |digits| <= 0
    ensures Denotes(Signed(negative, Plain(digits, exponent)), negative, Magnitude(digits, exponent))
  {
    hide Denotes, Magnitude, ValueOf;
    var zeros := Repeat('0', -(exponent + |digits|));
    LeadingZeros(digits, |zeros|);
    ReadsPoint(negative, "0", zeros + digits, Plain(digits, exponent), "0" + (zeros + digits));
    SameMagnitude("0" + (zeros + digits), digits, exponent);
  }

  lemma LeadingZeros(digits: string, k: nat)
    ensures "0." + Repeat('0', k) + digits == "0" + "." + (Repeat('0', k) + digits)
    ensures ValueOf("0" + (Repeat('0', k) + digits)) == ValueOf(digits)
  {
    assert "0" + (Repeat('0', k) + digits) == Repeat('0', k + 1) + digits;
    ValueOfConcat(Repeat('0', k + 1), digits);
    ValueOfZeros(k + 1);
  }

  /** For digit strings of any length and any exponent, the printed text denotes `digits * 10^exponent`. */
  lemma FormatDenotes(negative: bool, digits: string, exponent: int)
    requires AllDigits(digits)
    ensures Denotes(FormatText(negative, digits, exponent), negative, Magnitude(digits, exponent))
  {
    hide Denotes, Magnitude, Plain;
    var r := StripTrailing(digits, exponent);
    StripTrailingKeeps(digits, exponent);
    CanonicalKeepsValue(r.0);
    SameMagnitude(Canonical(r.0), r.0, r.1);
    ReadsPlainDigits(negative, Canonical(r.0), r.1);
  }

  // ---- Written numbers, piece by piece ----

  /** A number as it may be written: a sign, digits, perhaps a point and more digits, perhaps an exponent. */
  datatype WrittenNumber = WrittenNumber(sign: string, whole: string, point: bool, fraction: string, mark: string, expSign: string, expDigits: string) {
    ghost predicate Valid() {
      && sign in {"", "+", "-"} && AllDigits(whole) && AllDigits(fraction) && (point || fraction == "")
      && mark in {"", "e", "E"} && expSign in {"", "+", "-"} && AllDigits(expDigits)
      && (if mark == "" then expSign == "" && expDigits == "" else expDigits != "")
    }

    function Body(): (s: string) {
      whole + if point then "." + fraction else ""
    }

    function Tail(): (s: string) {
      mark + (expSign + expDigits)
    }

    function Text(): (s: string) {
      sign + (Body() + Tail())
    }

    /** What the exponent says, less the digits behind the point. */
    function Exponent(): (e: int) {
      (if expSign == "-" then -(ValueOf(expDigits) as int) else ValueOf(expDigits)) - |fraction|
    }
  }

  predicate IsNumberChar(c: char) {
    IsDigit(c) || c == '.' || c == '+' || c == '-' || c == 'e' || c == 'E'
  }

  lemma NumberChars(w: WrittenNumber)
    requires w.Valid()
    ensures forall c | c in w.Text() :: IsNumberChar(c)
  {
    forall i | 0 <= i < |w.whole| ensures IsNumberChar(w.whole[i]) {}
    forall i | 0 <= i < |w.fraction| ensures IsNumberChar(w.fraction[i]) {}
    forall i | 0 <= i < |w.expDigits| ensures IsNumberChar(w.expDigits[i]) {}
    hide IsNumberChar;
    BodyChars(w);
    TailChars(w);
  }

  lemma BodyChars(w: WrittenNumber)
    requires w.Valid()
    ensures forall c | c in w.Body() :: IsDigit(c) || c == '.'
  {}

  lemma TailChars(w: WrittenNumber)
    requires w.Valid()
    ensures forall c | c in w.Tail() :: IsNumberChar(c)
    ensures forall c | c in w.sign :: IsNumberChar(c)
  {}

  lemma NumberIsOrdinary(s: string)
    requires forall c | c in s :: IsNumberChar(c)
    ensures Trim(s) == s && ParseSpecial(s) == None
  {
    TrimKeeps(s);
    assert s != [] ==> s[0] in s && s[|s| - 1] in s;
    assert forall i | 0 <= i < |s| :: IsNumberChar(s[i]);
    assert "Infinity"[0] == 'I' && "+Infinity"[1] == 'I' && "-Infinity"[1] == 'I' && "NaN"[0] == 'N' && "sNaN"[0] == 's';
  }

  lemma {:induction false} ExponentBehind(front: string, rest: string)
    requires 'e' !in front && 'E' !in front && (rest == [] || rest[0] == 'e' || rest[0] == 'E')
    ensures ExponentAt(front + rest) == |front|
  {
    if front == [] {
      assert front + rest == rest;
    } else {
      assert (front + rest)[1..] == front[1..] + rest;
      ExponentBehind(front[1..], rest);
    }
  }

  lemma {:induction false} AllLeading(d: string)
    requires AllDigits(d)
    ensures LeadingDigits(d) == d
  {
    if d != [] {
      AllLeading(d[1..]);
      assert d == [d[0]] + d[1..];
    }
  }

  lemma ExponentRead(expSign: string, expDigits: string)
    requires expSign in {"", "+", "-"} && AllDigits(expDigits) && expDigits != ""
    ensures ParseInt(expSign + expDigits) == Some(if expSign == "-" then -(ValueOf(expDigits) as int) else ValueOf(expDigits))
  {
    hide ValueOf, LeadingDigits;
    var t := expSign + expDigits;
    assert t[0] == if expSign == "" then expDigits[0] else expSign[0];
    assert IsDigit(expDigits[0]) && !IsSpace(t[0]);
    assert TrimStart(t) == t;
    assert expSign == "" ==> t == expDigits;
    assert expSign != "" ==> t[1..] == expDigits;
    AllLeading(expDigits);
  }

  lemma MantissaRead(w: WrittenNumber, exp: int)
    requires w.Valid()
    ensures ParseMantissa(w.sign == "-", w.Body(), Some(exp))
         == Finite(w.sign == "-", Canonical(w.whole + w.fraction), Some(exp - |w.fraction|))
  {
    hide Canonical;
    assert '.' !in w.whole by {
      assert forall i | 0 <= i < |w.whole| :: IsDigit(w.whole[i]);
    }
    FindAfter(w.whole, '.', if w.point then "." + w.fraction else "");
    if w.point {
      assert w.Body()[..|w.whole|] == w.whole && w.Body()[|w.whole| + 1..] == w.fraction;
    } else {
      assert w.Body() == w.whole && w.whole + w.fraction == w.whole;
    }
  }

  lemma SignRead(w: WrittenNumber)
    requires w.Valid()
    ensures ParseFinite(w.Text()) == ParseMantissa(w.sign == "-", w.Body(), if w.mark == "" then Some(0) else ParseInt(w.expSign + w.expDigits))
  {
    hide ParseInt, ParseMantissa, ExponentAt, WrittenNumber.Body;
    var rest := w.Body() + w.Tail();
    MarkFound(w, rest);
    RestRead(w, w.Text(), rest);
  }

  /** The mark ends the digits and is followed by the exponent. */
  lemma MarkFound(w: WrittenNumber, rest: string)
    requires w.Valid() && rest == w.Body() + w.Tail()
    ensures ExponentAt(rest) == |w.Body()| && rest[..|w.Body()|] == w.Body()
    ensures (|w.Body()| < |rest|) == (w.mark != "")
    ensures w.mark != "" ==> rest[|w.Body()| + 1..] == w.expSign + w.expDigits
  {
    hide ExponentAt;
    BodyChars(w);
    ExponentBehind(w.Body(), w.Tail());
    if w.mark != "" {
      hide WrittenNumber.Body;
      assert w.Tail()[1..] == w.expSign + w.expDigits;
      assert rest[|w.Body()| + 1..] == w.Tail()[1..];
    }
  }

  /** The sign is split off the front. */
  lemma RestRead(w: WrittenNumber, s: string, rest: string)
    requires w.Valid() && rest == w.Body() + w.Tail() && s == w.sign + rest
    ensures (s != [] && s[0] == '-') == (w.sign == "-")
    ensures (if s != [] && (s[0] == '-' || s[0] == '+') then s[1..] else s) == rest
  {
    BodyChars(w);
    if w.sign == "" {
      assert s == rest;
      assert s != [] ==> if w.Body() != [] then s[0] == w.Body()[0] else s[0] == w.Tail()[0];
      assert w.Body() != [] ==> w.Body()[0] in w.Body();
    } else {
      assert s[1..] == rest && s[0] == w.sign[0];
    }
  }

  /**
   Every number so written is read with its sign, its digits and its exponent: as
   `ValueOf(whole + fraction) * 10^(x - |fraction|)`, `x` being the exponent with its own sign.
   */
  lemma WrittenIsRead(w: WrittenNumber)
    requires w.Valid()
    ensures ParseNumber(w.Text()) == Finite(w.sign == "-", Canonical(w.whole + w.fraction), Some(w.Exponent()))
    ensures AllDigits(Canonical(w.whole + w.fraction))
    ensures IsNumber(ParseNumber(w.Text()), w.sign == "-", ValueOf(w.whole + w.fraction) as real * Power(w.Exponent()))
  {
    hide ParseFinite, ParseSpecial, Trim, ParseInt, ParseMantissa, Canonical, Power, ValueOf;
    NumberChars(w);
    NumberIsOrdinary(w.Text());
    SignRead(w);
    if w.mark != "" {
      ExponentRead(w.expSign, w.expDigits);
    } else {
      NoDigits();
    }
    var x: int := ValueOf(w.expDigits);
    MantissaRead(w, if w.expSign == "-" then -x else x);
    CanonicalKeepsValue(w.whole + w.fraction);
  }

  lemma NoDigits()
    ensures ValueOf("") == 0
  {}

  /** For one: 1E-3 is a thousandth. */
  lemma ThousandthIsRead()
    ensures ParseNumber("1E-3") == Finite(false, "1", Some(-3))
  {
    hide ParseNumber, Canonical, IsNumber;
    var w := WrittenNumber("", "1", false, "", "E", "-", "3");
    WrittenIsRead(w);
    assert w.Text() == "1E-3";
    OneAndThree();
    assert "1" + "" == "1";
  }

  lemma OneAndThree()
    ensures Canonical("1") == "1" && ValueOf("3") == 3
  {
    assert "3"[..0] == "";
  }

  /** The printer writes such numbers, without an exponent. */
  lemma FormatIsWritten(negative: bool, digits: string, exponent: int) returns (w: WrittenNumber)
    requires AllDigits(digits)
    ensures w.Valid() && w.mark == "" && w.sign == (if negative then "-" else "") && w.Text() == FormatText(negative, digits, exponent)
  {
    hide Canonical, StripTrailing;
    var r := StripTrailing(digits, exponent);
    StripTrailingKeeps(digits, exponent);
    CanonicalKeepsValue(r.0);
    var d, e := Canonical(r.0), r.1;
    var sign := if negative then "-" else "";
    if e >= 0 {
      w := WrittenNumber(sign, d + Repeat('0', e), false, "", "", "", "");
    } else if e + |d| > 0 {
      w := WrittenNumber(sign, d[..e + |d|], true, d[e + |d|..], "", "", "");
      assert w.Body() == Plain(d, e);
    } else {
      w := WrittenNumber(sign, "0", true, Repeat('0', -(e + |d|)) + d, "", "", "");
      assert w.Body() == Plain(d, e);
    }
    assert w.Tail() == "" && w.Body() + w.Tail() == w.Body();
    assert "" + w.Body() == w.Body();
  }
}
