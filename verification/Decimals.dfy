/**
 The zoned and packed decimal codecs of src/datatypes/AS400ZonedDecimal.js and
 src/datatypes/AS400PackedDecimal.js, over the strings the source uses for exact values.
 */
module Decimals {
  import opened Bytes
  import opened Digits
  import opened Text
  import opened Outcome

  datatype Precision = Precision(digits: nat, decimals: nat)

  /** A precision the constructors accept. */
  type Format = f: Precision | 1 <= f.digits <= 63 && f.decimals <= f.digits witness Precision(1, 0)

  /** The constructor's checks. */
  method MakeFormat(numDigits: int, numDecimalPositions: int) returns (r: Result<Format>)
    ensures r.Ok? <==> 1 <= numDigits <= 63 && 0 <= numDecimalPositions <= numDigits
    ensures r.Ok? ==> r.value == Precision(numDigits, numDecimalPositions)
  {
    if numDigits < 1 || numDigits > 63 {
      return Err(OutOfRange);
    }
    if numDecimalPositions < 0 || numDecimalPositions > numDigits {
      return Err(OutOfRange);
    }
    r := Ok(Precision(numDigits, numDecimalPositions));
  }

  // ---- From the value's string to its digits ----

  predicate IsNegative(value: string) {
    value != [] && value[0] == '-'
  }

  /** The integer part: at least one digit, cut or padded on the left to its width. */
  function IntegerDigits(f: Format, part: string): (r: string)
  {
    var width := f.digits - f.decimals;
    var padded := PadStart(if part == [] then "0" else part, width);
    padded[|padded| - width..]
  }

  /** The fraction, cut or padded on the right to its width. */
  function FractionDigits(f: Format, part: string): (r: string)
    ensures |r| == f.decimals
  {
    PadEnd(part, f.decimals)[..f.decimals]
  }

  /** The digits both encoders write. */
  function DigitString(f: Format, value: string): (r: string)
    ensures |r| == f.digits
  {
    var abs := if IsNegative(value) then value[1..] else value;
    var k := Find(abs, '.');
    IntegerDigits(f, abs[..k]) + FractionDigits(f, if k < |abs| then abs[k + 1..] else [])
  }

  // ---- Zoned ----

  /** One digit a byte, zone 0xF, but zone 0xD on the last digit of a negative value. */
  function ZonedBytes(digits: string, negative: bool): (b: seq<Byte>)
  {
    seq(|digits|, i requires 0 <= i < |digits| => (if i == |digits| - 1 && negative then 0xD0 else 0xF0) + DigitOf(digits[i]))
  }

  method ZonedToBuffer(f: Format, value: string) returns (buf: array<Byte>)
    ensures fresh(buf) && buf[..] == ZonedBytes(DigitString(f, value), IsNegative(value))
  {
    var negative := IsNegative(value);
    var digits := DigitString(f, value);
    buf := new Byte[f.digits](_ => 0);
    for i := 0 to f.digits
      invariant forall j | 0 <= j < i :: buf[j] == ZonedBytes(digits, negative)[j]
    {
      var d := DigitOf(digits[i]);
      if i == f.digits - 1 {
        buf[i] := (if negative then 0x0D else 0x0F) * 16 + d;
      } else {
        buf[i] := 0x0F * 16 + d;
      }
    }
  }

  /** `nibble.toString()`. */
  function NibbleText(v: nat): (s: string)
    requires v < 16
  {
    if v < 10 then [DigitChar(v)] else ['1', DigitChar(v - 10)]
  }

  /** The point put in, leading zeros taken out, and the sign in front unless the value is zero. */
  function Render(f: Format, digits: string, negative: bool): (r: string)
    requires |digits| >= f.decimals
  {
    var split := |digits| - f.decimals;
    var text := if f.decimals > 0 then Canonical(digits[..split]) + "." + digits[split..] else Canonical(digits);
    if negative && !IsZeroText(text) then "-" + text else text
  }

  /** `text === '0'` or `text` matches `/^0\\.0+$/`. */
  predicate IsZeroText(text: string) {
    text == "0" || (|text| > 2 && text[..2] == "0." && forall i | 2 <= i < |text| :: text[i] == '0')
  }

  function ZonedDigits(buf: seq<Byte>, offset: nat, n: nat): (s: string)
    ensures |s| >= n
  {
    if n == 0 then [] else ZonedDigits(buf, offset, n - 1) + NibbleText(At(buf, offset + n - 1) % 16)
  }

  /** The digits of every low nibble, and the sign in the last zone. */
  function DecodeZoned(f: Format, buf: seq<Byte>, offset: nat): (r: string) {
    Render(f, ZonedDigits(buf, offset, f.digits), At(buf, offset + f.digits - 1) / 16 == 0x0D)
  }

  method ZonedFromBuffer(f: Format, buf: seq<Byte>, offset: nat) returns (r: string)
    ensures r == DecodeZoned(f, buf, offset)
  {
    var digits := "";
    var negative := false;
    for i := 0 to f.digits
      invariant digits == ZonedDigits(buf, offset, i)
      invariant i == f.digits ==> negative == (At(buf, offset + f.digits - 1) / 16 == 0x0D)
    {
      var b := At(buf, offset + i);
      digits := digits + NibbleText(b % 16);
      if i == f.digits - 1 {
        negative := b / 16 == 0x0D;
      }
    }
    r := Render(f, digits, negative);
  }

  // ---- Packed ----

  /** Two digits a byte, the sign nibble last; for an even number of digits the last digit is written twice. */
  function PackedNibbles(digits: string, negative: bool): (n: seq<nat>)
    requires digits != []
    ensures |n| == 2 * (|digits| / 2 + 1)
    ensures forall i | 0 <= i < |n| :: n[i] < 16
  {
    seq(|digits|, i requires 0 <= i < |digits| => DigitOf(digits[i])) +
    (if |digits| % 2 == 0 then [DigitOf(digits[|digits| - 1])] else []) +
    [if negative then 0x0D else 0x0F]
  }

  function PackedBytes(digits: string, negative: bool): (b: seq<Byte>)
    requires digits != []
    ensures |b| == |digits| / 2 + 1
  {
    var n := PackedNibbles(digits, negative);
    seq(|digits| / 2 + 1, i requires 0 <= i < |digits| / 2 + 1 => n[2 * i] * 16 + n[2 * i + 1])
  }

  /** The nibble at position `p` when the first `count` digits have been written. */
  function NibbleAt(digits: string, count: nat, p: nat): (v: nat)
    ensures v < 10
  {
    if p < count && p < |digits| then DigitOf(digits[p]) else 0
  }

  /** Two digits a byte, the first of each pair in the high nibble. */
  method PackDigits(digits: string, buf: array<Byte>)
    requires buf.Length == |digits| / 2 + 1 && forall j | 0 <= j < buf.Length :: buf[j] == 0
    modifies buf
    ensures forall j | 0 <= j < buf.Length :: buf[j] == NibbleAt(digits, |digits|, 2 * j) * 16 + NibbleAt(digits, |digits|, 2 * j + 1)
  {
    for i := 0 to |digits|
      invariant forall j | 0 <= j < buf.Length :: buf[j] == NibbleAt(digits, i, 2 * j) * 16 + NibbleAt(digits, i, 2 * j + 1)
    {
      var d := DigitOf(digits[i]);
      var byteIdx := i / 2;
      if i % 2 == 0 {
        buf[byteIdx] := d * 16;
      } else {
        buf[byteIdx] := buf[byteIdx] + d;
      }
    }
  }

  /** The sign nibble into the last byte, behind the last digit. */
  method PackSign(digits: string, negative: bool, buf: array<Byte>)
    requires digits != [] && buf.Length == |digits| / 2 + 1
    requires forall j | 0 <= j < buf.Length :: buf[j] == NibbleAt(digits, |digits|, 2 * j) * 16 + NibbleAt(digits, |digits|, 2 * j + 1)
    modifies buf
    ensures buf[..] == PackedBytes(digits, negative)
  {
    var n, last := |digits|, buf.Length - 1;
    var signNibble := if negative then 0x0D else 0x0F;
    if n % 2 == 0 {
      buf[last] := DigitOf(digits[n - 1]) * 16 + signNibble;
    } else {
      assert 2 * last == n - 1;
      buf[last] := buf[last] / 16 * 16 + signNibble;
    }
    PackedBytesAre(digits, negative, buf[..]);
  }

  method PackedToBuffer(f: Format, value: string) returns (buf: array<Byte>)
    ensures fresh(buf) && buf[..] == PackedBytes(DigitString(f, value), IsNegative(value))
  {
    var negative := IsNegative(value);
    var paddedDigits := DigitString(f, value);
    buf := new Byte[f.digits / 2 + 1](_ => 0);
    PackDigits(paddedDigits, buf);
    PackSign(paddedDigits, negative, buf);
  }

  lemma PackedBytesAre(digits: string, negative: bool, b: seq<Byte>)
    requires digits != [] && |b| == |digits| / 2 + 1
    requires forall j | 0 <= j < |b| - 1 :: b[j] == NibbleAt(digits, |digits|, 2 * j) * 16 + NibbleAt(digits, |digits|, 2 * j + 1)
    requires b[|b| - 1] == DigitOf(digits[|digits| - 1]) * 16 + (if negative then 0x0D else 0x0F)
    ensures b == PackedBytes(digits, negative)
  {
    var n := PackedNibbles(digits, negative);
    forall j | 0 <= j < |b| - 1 ensures b[j] == n[2 * j] * 16 + n[2 * j + 1] {
      assert n[2 * j] == DigitOf(digits[2 * j]) && n[2 * j + 1] == DigitOf(digits[2 * j + 1]);
    }
  }

  function PackedDigits(buf: seq<Byte>, offset: nat, len: nat, upTo: nat): (s: string)
    requires upTo <= len
  {
    if upTo == 0 then [] else
      var b := At(buf, offset + upTo - 1);
      PackedDigits(buf, offset, len, upTo - 1) + NibbleText(b / 16) + (if upTo == len then [] else NibbleText(b % 16))
  }

  /** The digits of every nibble but the last, and the sign in the last. */
  function DecodePacked(f: Format, buf: seq<Byte>, offset: nat): (r: string) {
    var len := f.digits / 2 + 1;
    Render(f, PadStart(PackedDigits(buf, offset, len, len), f.digits), At(buf, offset + len - 1) % 16 == 0x0D)
  }

  method PackedFromBuffer(f: Format, buf: seq<Byte>, offset: nat) returns (r: string)
    ensures r == DecodePacked(f, buf, offset)
  {
    var len := f.digits / 2 + 1;
    var digits := "";
    var negative := false;
    for i := 0 to len
      invariant digits == PackedDigits(buf, offset, len, i)
      invariant i == len ==> negative == (At(buf, offset + len - 1) % 16 == 0x0D)
    {
      var b := At(buf, offset + i);
      var hi, lo := b / 16, b % 16;
      if i == len - 1 {
        digits := digits + NibbleText(hi);
        negative := lo == 0x0D;
      } else {
        digits := digits + NibbleText(hi) + NibbleText(lo);
      }
    }
    ghost var all := digits;
    while |digits| < f.digits
      invariant PadStart(digits, f.digits) == PadStart(all, f.digits)
      decreases f.digits - |digits|
    {
      PadOne(digits, f.digits);
      digits := "0" + digits;
    }
    r := Render(f, digits, negative);
  }

  lemma PadOne(s: string, n: nat)
    requires |s| < n
    ensures PadStart("0" + s, n) == PadStart(s, n)
  {
    assert Repeat('0', n - |s|) == Repeat('0', n - |s| - 1) + "0";
  }
}
