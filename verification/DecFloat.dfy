/** The decimal64 and decimal128 fields of src/datatypes/AS400DecFloat.js. */
module DecFloat {
  import opened Bytes
  import opened Digits
  import opened Outcome
  import opened DecFloatBits
  import opened DecFloatText

  datatype Width = Decimal64 | Decimal128 {
    function Size(): (n: nat) { if Decimal64? then 8 else 16 }
    function Precision(): (n: nat) { if Decimal64? then 16 else 34 }
    function Groups(): (n: nat) { if Decimal64? then 5 else 11 }
    function Bias(): (n: nat) { if Decimal64? then 398 else 6176 }
    /** The number of exponents that share their two highest bits. */
    function Low(): (n: nat) { if Decimal64? then 256 else 4096 }
    /** Where the declets start, two bits later behind a leading digit of 8 or 9. */
    function Start(large: bool): (n: nat) {
      (if Decimal64? then 14 else 18) + if large then 2 else 0
    }
  }

  // ---- Encoding ----

  /** The coefficient, cut or padded on the right to the precision. */
  function Coefficient(w: Width, digits: string): (d: string)
    ensures |d| == w.Precision()
  {
    PadEnd(if |digits| > w.Precision() then digits[..w.Precision()] else digits, w.Precision())
  }

  /** The biased exponent: lowered by the padding, but not raised by the digits cut off. `NaN` has the bits of 0. */
  function Biased(w: Width, digits: string, exp: Option<int>): (b: int) {
    if exp.None? then 0
    else if |digits| > w.Precision() then exp.value + w.Bias()
    else exp.value - (w.Precision() - |digits|) + w.Bias()
  }

  /** The bytes before the declets are or-ed in: sign, exponent and leading digit. */
  function HeaderOf(w: Width, negative: bool, biased: int, msd: nat): (b: seq<Byte>)
    requires msd < 10
    ensures |b| == w.Size()
  {
    var sign := if negative then 128 else 0;
    if w.Decimal64? then
      var expHi, expLo := biased / 256 % 4, biased % 256;
      (if msd >= 8 then [sign + 0x60 + expHi * 2 + msd % 2, expLo]
       else [sign + expHi * 32 + msd * 4 + expLo / 64, expLo % 64 * 4]) + Zeros(6)
    else
      var expHi := biased / 4096 % 4;
      (if msd >= 8 then [sign + 0x60 + expHi * 2 + msd % 2, biased / 16 % 256, biased % 16 * 16]
       else [sign + expHi * 32 + msd * 4 + biased / 1024 % 4, biased / 4 % 256, biased % 4 * 64]) + Zeros(13)
  }

  /** `b` is the field the encoder makes of a string. */
  ghost predicate IsEncoding(w: Width, str: string, b: seq<Byte>) {
    match ParseNumber(str)
    case Infinite(negative) => b == [if negative then 0xF8 else 0x78] + Zeros(w.Size() - 1)
    case NotANumber => b == [0x7C] + Zeros(w.Size() - 1)
    case Finite(negative, digits, exp) => IsFiniteEncoding(w, negative, Coefficient(w, digits), Biased(w, digits, exp), b)
  }

  ghost predicate IsFiniteEncoding(w: Width, negative: bool, coefficient: string, biased: int, b: seq<Byte>)
    requires |coefficient| == w.Precision()
  {
    var msd := DigitOf(coefficient[0]);
    Written(HeaderOf(w, negative, biased, msd), b, w.Start(msd >= 8), TrailingBits(coefficient, w.Groups()))
  }

  method ToBuffer(w: Width, value: string) returns (buf: array<Byte>)
    ensures fresh(buf) && IsEncoding(w, value, buf[..])
  {
    hide IsFiniteEncoding, ParseNumber;
    buf := new Byte[w.Size()](_ => 0);
    var p := ParseNumber(value);
    if p.Infinite? {
      buf[0] := if p.negative then 0xF8 else 0x78;
      return;
    }
    if p.NotANumber? {
      buf[0] := 0x7C;
      return;
    }
    var digits := p.digits;
    if |digits| > w.Precision() {
      digits := digits[..w.Precision()];
    }
    var exp := if p.exp.Some? then Some(p.exp.value - (w.Precision() - |digits|)) else None;
    digits := PadEnd(digits, w.Precision());
    var biased := if exp.Some? then exp.value + w.Bias() else 0;
    if w.Decimal64? {
      EncodeDecimal64(p.negative, digits, biased, buf);
    } else {
      EncodeDecimal128(p.negative, digits, biased, buf);
    }
  }

  method EncodeDecimal64(negative: bool, digits: string, biased: int, buf: array<Byte>)
    requires |digits| == 16 && buf.Length == 8 && forall i | 0 <= i < 8 :: buf[i] == 0
    modifies buf
    ensures IsFiniteEncoding(Decimal64, negative, digits, biased, buf[..])
  {
    var sign := if negative then 128 else 0;
    var msd := DigitOf(digits[0]);
    var expHi := biased / 256 % 4;
    var expLo := biased % 256;
    if msd >= 8 {
      buf[0] := sign + 0x60 + expHi * 2 + msd % 2;
    } else {
      buf[0] := sign + expHi * 32 + msd * 4 + expLo / 64;
    }
    if msd >= 8 {
      buf[1] := expLo;
    } else {
      buf[1] := expLo % 64 * 4;
    }
    assert buf[..] == HeaderOf(Decimal64, negative, biased, msd);
    PackTrailing(digits, 5, buf, if msd >= 8 then 16 else 14);
  }

  method EncodeDecimal128(negative: bool, digits: string, biased: int, buf: array<Byte>)
    requires |digits| == 34 && buf.Length == 16 && forall i | 0 <= i < 16 :: buf[i] == 0
    modifies buf
    ensures IsFiniteEncoding(Decimal128, negative, digits, biased, buf[..])
  {
    var sign := if negative then 128 else 0;
    var msd := DigitOf(digits[0]);
    var expHi := biased / 4096 % 4;
    if msd >= 8 {
      buf[0] := sign + 0x60 + expHi * 2 + msd % 2;
      buf[1] := biased / 16 % 256;
      buf[2] := biased % 16 * 16;
      assert buf[..] == HeaderOf(Decimal128, negative, biased, msd);
      PackTrailing(digits, 11, buf, 20);
    } else {
      buf[0] := sign + expHi * 32 + msd * 4 + biased / 1024 % 4;
      buf[1] := biased / 4 % 256;
      buf[2] := biased % 4 * 64;
      assert buf[..] == HeaderOf(Decimal128, negative, biased, msd);
      PackTrailing(digits, 11, buf, 18);
    }
  }

  // ---- Decoding ----

  predicate SignBit(b0: Byte) {
    b0 / 128 == 1
  }

  /** The five bits behind the sign, of which 11110 marks an infinity and 11111 no number. */
  function Tag(b0: Byte): (t: nat) {
    b0 / 4 % 32
  }

  /** Both high exponent bits set: the leading digit is 8 or 9. */
  predicate IsLarge(b0: nat) {
    b0 / 32 % 4 == 3
  }

  datatype Fields = Fields(large: bool, msd: nat, biased: nat)

  /** Leading digit and biased exponent out of the first bytes. */
  function ReadHeader(w: Width, b0: nat, b1: nat, b2: nat): (f: Fields)
    ensures f.msd < 10
  {
    if IsLarge(b0) then
      Fields(true, 8 + b0 % 2, if w.Decimal64? then b0 / 2 % 4 * 256 + b1 else b0 / 2 % 4 * 4096 + b1 * 16 + b2 / 16)
    else
      Fields(false, b0 / 4 % 8,
             if w.Decimal64? then b0 / 32 % 4 * 256 + b0 % 4 * 64 + b1 / 4 else b0 / 32 % 4 * 4096 + b0 % 4 * 1024 + b1 * 4 + b2 / 64)
  }

  function Decode(w: Width, buf: seq<Byte>, offset: nat): (r: string) {
    var b0 := At(buf, offset);
    if Tag(b0) == 0x1E then Signed(SignBit(b0), "Infinity")
    else if Tag(b0) == 0x1F then "NaN"
    else
      var f := ReadHeader(w, b0, At(buf, offset + 1), At(buf, offset + 2));
      FormatText(SignBit(b0), [DigitChar(f.msd)] + Trailing(buf, offset, w.Start(f.large), w.Groups()), f.biased - w.Bias())
  }

  method FromBuffer(w: Width, buf: seq<Byte>, offset: nat) returns (r: string)
    ensures r == Decode(w, buf, offset)
  {
    hide FormatText, ReadHeader;
    var b0 := At(buf, offset);
    var sign := SignBit(b0);
    if Tag(b0) == 0x1E { return Signed(sign, "Infinity"); }
    if Tag(b0) == 0x1F { return "NaN"; }
    var f := ReadHeader(w, b0, At(buf, offset + 1), At(buf, offset + 2));
    var trailing := UnpackTrailing(buf, offset, w.Start(f.large), w.Groups());
    r := Format(sign, [DigitChar(f.msd)] + trailing, f.biased - w.Bias());
  }
}
