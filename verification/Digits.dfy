/** Decimal digit strings and the numbers they denote. */
module Digits {

  predicate IsDigit(c: char) {
    '0' <= c <= '9'
  }

  predicate AllDigits(s: string) {
    forall i | 0 <= i < |s| :: IsDigit(s[i])
  }

  /** `parseInt(c, 10) || 0` for a single character. */
  function DigitOf(c: char): (d: nat)
    ensures d < 10
  {
    if IsDigit(c) then c as int - '0' as int else 0
  }

  function DigitChar(d: nat): (c: char)
    requires d < 10
    ensures IsDigit(c) && DigitOf(c) == d
  {
    '0' + d as char
  }

  function Pow10(n: nat): (p: nat)
    ensures p > 0
  {
    if n == 0 then 1 else 10 * Pow10(n - 1)
  }

  /** The number a digit string denotes. */
  function ValueOf(s: string): (v: nat) {
    if s == [] then 0 else 10 * ValueOf(s[..|s| - 1]) + DigitOf(s[|s| - 1])
  }

  /** The shortest numeral of a number. */
  function NatText(x: nat): (s: string)
    ensures s != [] && AllDigits(s)
  {
    if x < 10 then [DigitChar(x)] else NatText(x / 10) + [DigitChar(x % 10)]
  }

  /** The last `n` digits of a number, with leading zeros. */
  function FixedText(x: nat, n: nat): (s: string)
    ensures |s| == n && AllDigits(s)
    decreases n
  {
    if n == 0 then [] else FixedText(x / 10, n - 1) + [DigitChar(x % 10)]
  }

  function Repeat(c: char, n: nat): (s: string)
  {
    seq(n, _ => c)
  }

  /** `s.padStart(n, '0')`. */
  function PadStart(s: string, n: nat): (r: string)
  {
    if |s| < n then Repeat('0', n - |s|) + s else s
  }

  /** `s.padEnd(n, '0')`. */
  function PadEnd(s: string, n: nat): (r: string)
  {
    if |s| < n then s + Repeat('0', n - |s|) else s
  }

  /** `s.replace(/^0+/, '')`. */
  function StripZeros(s: string): (r: string) {
    if s != [] && s[0] == '0' then StripZeros(s[1..]) else s
  }

  /** `s.replace(/^0+/, '') || '0'`. */
  function Canonical(s: string): (r: string) {
    if StripZeros(s) == [] then "0" else StripZeros(s)
  }

  // ---- Arithmetic of digit strings ----

  lemma {:induction false} Pow10Add(a: nat, b: nat)
    ensures Pow10(a + b) == Pow10(a) * Pow10(b)
  {
    if a > 0 {
      Pow10Add(a - 1, b);
      TenFirst(Pow10(a - 1), Pow10(b));
    }
  }

  lemma TenFirst(x: nat, y: nat)
    ensures 10 * (x * y) == (10 * x) * y
  {}

  lemma MoveTen(a: nat, p: nat)
    ensures 10 * (a * p) == a * (10 * p)
  {}

  lemma {:induction false} ValueOfConcat(a: string, b: string)
    ensures ValueOf(a + b) == ValueOf(a) * Pow10(|b|) + ValueOf(b)
  {
    if b == [] {
      assert a + b == a;
    } else {
      var n := |b| - 1;
      assert (a + b)[..|a + b| - 1] == a + b[..n];
      ValueOfConcat(a, b[..n]);
      MoveTen(ValueOf(a), Pow10(n));
    }
  }

  lemma {:induction false} ValueBound(s: string)
    ensures ValueOf(s) < Pow10(|s|)
  {
    if s != [] {
      ValueBound(s[..|s| - 1]);
    }
  }

  lemma {:induction false} ValueOfZeros(n: nat)
    ensures ValueOf(Repeat('0', n)) == 0
  {
    if n > 0 {
      assert Repeat('0', n)[..n - 1] == Repeat('0', n - 1);
      ValueOfZeros(n - 1);
    }
  }

  /** A digit string is the fixed-width numeral of its value. */
  lemma {:induction false} FixedTextOfValue(s: string)
    requires AllDigits(s)
    ensures FixedText(ValueOf(s), |s|) == s
  {
    if s != [] {
      var n := |s| - 1;
      FixedTextOfValue(s[..n]);
      assert ValueOf(s) / 10 == ValueOf(s[..n]) && ValueOf(s) % 10 == DigitOf(s[n]);
      assert s == s[..n] + [s[n]];
    }
  }

  lemma {:induction false} StripZerosAppend(s: string, c: char)
    ensures StripZeros(s + [c]) == if StripZeros(s) == [] then StripZeros([c]) else StripZeros(s) + [c]
  {
    if s == [] {
      assert s + [c] == [c];
    } else {
      assert (s + [c])[1..] == s[1..] + [c];
      StripZerosAppend(s[1..], c);
    }
  }

  /** Without its leading zeros, a digit string is the shortest numeral of its value. */
  lemma {:induction false} CanonicalIsNatText(s: string)
    requires AllDigits(s)
    ensures Canonical(s) == NatText(ValueOf(s))
    ensures StripZeros(s) == [] <==> ValueOf(s) == 0
  {
    if s != [] {
      var n := |s| - 1;
      CanonicalIsNatText(s[..n]);
      assert s == s[..n] + [s[n]];
      StripZerosAppend(s[..n], s[n]);
      assert ValueOf(s) / 10 == ValueOf(s[..n]) && ValueOf(s) % 10 == DigitOf(s[n]);
      assert DigitChar(DigitOf(s[n])) == s[n];
    }
  }

  lemma {:induction false} ValueOfNatText(x: nat)
    ensures ValueOf(NatText(x)) == x
  {
    if x >= 10 {
      ValueOfNatText(x / 10);
      assert NatText(x)[..|NatText(x)| - 1] == NatText(x / 10);
    }
  }

  lemma OneMore(q: nat, p: nat)
    requires q > 0
    ensures q * p == (q - 1) * p + p
  {}

  lemma {:induction false} QuotientsEqual(q: nat, r: nat, q': nat, r': nat, p: nat)
    requires q * p + r == q' * p + r' && r < p && r' < p
    ensures q == q' && r == r'
    decreases q
  {
    if q > 0 {
      OneMore(q, p);
    }
    if q' > 0 {
      OneMore(q', p);
    }
    if q > 0 && q' > 0 {
      QuotientsEqual(q - 1, r, q' - 1, r', p);
    }
  }

  /** `floor(a / b)`. */
  function Floor(a: nat, b: nat): (q: nat)
    requires b > 0
  {
    a / b
  }

  /** What `floor` leaves over. */
  function Rest(a: nat, b: nat): (r: nat)
    requires b > 0
    ensures r < b
  {
    a % b
  }

  lemma FloorAndRest(a: nat, b: nat)
    requires b > 0
    ensures a == Floor(a, b) * b + Rest(a, b)
  {}

  lemma DivModUnique(v: nat, q: nat, p: nat, r: nat)
    requires p > 0 && r < p && v == q * p + r
    ensures v / p == q == Floor(v, p) && v % p == r == Rest(v, p)
  {
    QuotientsEqual(v / p, v % p, q, r, p);
  }

  /** The front of a digit string denotes the quotient, its back the remainder. */
  lemma ValueSplit(a: string, b: string)
    ensures Floor(ValueOf(a + b), Pow10(|b|)) == ValueOf(a) && Rest(ValueOf(a + b), Pow10(|b|)) == ValueOf(b)
  {
    ValueOfConcat(a, b);
    ValueBound(b);
    DivModUnique(ValueOf(a + b), ValueOf(a), Pow10(|b|), ValueOf(b));
  }

  lemma {:induction false} FixedTextInjective(x: nat, y: nat, n: nat)
    requires FixedText(x, n) == FixedText(y, n) && x < Pow10(n) && y < Pow10(n)
    ensures x == y
  {
    if n > 0 {
      var s, t := FixedText(x, n), FixedText(y, n);
      assert s[..n - 1] == FixedText(x / 10, n - 1) && t[..n - 1] == FixedText(y / 10, n - 1);
      assert s[n - 1] == DigitChar(x % 10) && t[n - 1] == DigitChar(y % 10);
      assert DigitOf(s[n - 1]) == x % 10 && DigitOf(t[n - 1]) == y % 10;
      FixedTextInjective(x / 10, y / 10, n - 1);
    }
  }
}
