/** Exactly which numbers a decimal floating-point field gives back. */
module DecFloatTheorems {
  import opened Bytes
  import opened Digits
  import opened Outcome
  import Tables = DecFloatTables
  import opened DecFloatBits
  import opened DecFloatText
  import opened Text
  import opened DecFloat

  // ---- Header bytes under the declets ----

  function Shift(x: nat, low: nat): (r: nat) {
    if low == 0 then x else Shift(x / 2, low - 1)
  }

  lemma {:induction false} HighBitsDetermine(x: nat, y: nat, low: nat, n: nat)
    requires low <= n && x < Pow2(n) && y < Pow2(n)
    requires forall k | low <= k < n :: TestBit(x, k) == TestBit(y, k)
    ensures Shift(x, low) == Shift(y, low)
  {
    if low == 0 {
      BitsDetermine(x, y, n);
    } else {
      forall k | low - 1 <= k < n - 1 ensures TestBit(x / 2, k) == TestBit(y / 2, k) {
        assert TestBit(x, k + 1) == TestBit(y, k + 1);
      }
      HighBitsDetermine(x / 2, y / 2, low - 1, n - 1);
    }
  }

  lemma Shifts(x: nat)
    ensures Shift(x, 0) == x
    ensures Shift(x, 2) == x / 4
    ensures Shift(x, 4) == x / 16
    ensures Shift(x, 6) == x / 64
  {
    ShiftTwo(x, 2);
    ShiftTwo(x, 4);
    ShiftTwo(x, 6);
    ShiftTwo(x / 4, 2);
    ShiftTwo(x / 4, 4);
    ShiftTwo(x / 4 / 4, 2);
    assert Shift(x / 4 / 4 / 4, 0) == x / 4 / 4 / 4;
  }

  lemma ShiftTwo(x: nat, low: nat)
    requires low >= 2
    ensures Shift(x, low) == Shift(x / 4, low - 2)
  {
    assert x / 2 / 2 == x / 4;
    assert Shift(x, low) == Shift(x / 2, low - 1) == Shift(x / 2 / 2, low - 2);
  }

  /** The bits of byte `i` above the lowest `low` are not touched by what is written behind them. */
  lemma ByteKept(was: seq<Byte>, now: seq<Byte>, start: nat, bits: seq<bool>, i: nat, low: nat)
    requires Written(was, now, start, bits) && i < |was| && low <= 8 && 8 * i + 8 - low <= start
    ensures Shift(was[i], low) == Shift(now[i], low)
  {
    Pow2Eight();
    forall k | low <= k < 8 ensures TestBit(was[i], k) == TestBit(now[i], k) {
      var pos := 8 * i + (7 - k);
      assert pos / 8 == i && 7 - pos % 8 == k;
      BitFromIs(now, 0, pos);
      BitFromIs(was, 0, pos);
      assert BitFrom(now, 0, pos) == BitFrom(was, 0, pos);
    }
    HighBitsDetermine(was[i], now[i], low, 8);
  }

  /** Reading the header of the finished field is reading the header written first. */
  lemma HeaderKept(w: Width, h: seq<Byte>, b: seq<Byte>, large: bool, bits: seq<bool>)
    requires |h| == w.Size() && Written(h, b, w.Start(large), bits)
    requires large == IsLarge(h[0])
    ensures b[0] == h[0]
    ensures ReadHeader(w, b[0], b[1], b[2]) == ReadHeader(w, h[0], h[1], h[2])
  {
    ByteKept(h, b, w.Start(large), bits, 0, 0);
    Shifts(h[1]);
    Shifts(b[1]);
    Shifts(h[2]);
    Shifts(b[2]);
    if w.Decimal64? {
      ByteKept(h, b, w.Start(large), bits, 1, if large then 0 else 2);
    } else {
      ByteKept(h, b, w.Start(large), bits, 1, 0);
      ByteKept(h, b, w.Start(large), bits, 2, if large then 4 else 6);
    }
  }

  // ---- The header read back ----

  /** The part of the exponent a header holds. */
  function Stored(w: Width, biased: int): (m: nat)
    ensures m < 4 * w.Low()
  {
    if w.Decimal64? then biased % 1024 else biased % 16384
  }

  lemma HeaderReadsBack(w: Width, negative: bool, biased: int, msd: nat)
    requires msd < 10
    ensures var h := HeaderOf(w, negative, biased, msd);
            ReadsBack(w, negative, Stored(w, biased), msd, h[0], h[1], h[2])
  {
    if w.Decimal64? {
      Header64ReadsBack(negative, biased, msd);
    } else {
      Header128ReadsBack(negative, biased, msd);
    }
  }

  lemma SmallFirstByte(negative: bool, hi: nat, msd: nat, t: nat, x: nat)
    requires hi < 4 && msd < 8 && t < 4 && x == (if negative then 128 else 0) + hi * 32 + msd * 4 + t
    ensures (x / 128 == 1) == negative && x / 32 % 4 == hi && x / 4 % 32 == 8 * hi + msd && x / 4 % 8 == msd && x % 4 == t
  {}

  lemma LargeFirstByte(negative: bool, hi: nat, m: nat, x: nat)
    requires hi < 4 && m < 2 && x == (if negative then 128 else 0) + 0x60 + hi * 2 + m
    ensures (x / 128 == 1) == negative && x / 32 % 4 == 3 && x / 4 % 32 == 24 + hi / 2 && x / 2 % 4 == hi && x % 2 == m
  {}

  lemma Exponent64(biased: int)
    ensures var m := biased % 1024;
            biased / 256 % 4 == m / 256 && biased % 256 == m % 256
  {
    var q, m := biased / 1024, biased % 1024;
    DivModOf(biased, 4 * q + m / 256, 256, m % 256);
    DivModOf(4 * q + m / 256, q, 4, m / 256);
  }

  lemma Exponent128(biased: int)
    ensures var m := biased % 16384;
            biased / 4096 % 4 == m / 4096 && biased % 16 == m % 4096 % 16 && biased % 4 == m % 4096 % 4
  {
    var q, m := biased / 16384, biased % 16384;
    var hi, lo := m / 4096, m % 4096;
    DivModOf(biased, 4 * q + hi, 4096, lo);
    DivModOf(4 * q + hi, q, 4, hi);
    Low128(biased, 4 * q + hi, lo);
  }

  lemma DivModOf(x: int, q: int, m: nat, r: nat)
    requires x == q * m + r && r < m
    ensures x / m == q && x % m == r
  {
    var k := x / m - q;
    assert k * m == r - x % m;
    AtLeastOnce(k, m);
    AtLeastOnce(-k, m);
  }

  lemma AtLeastOnce(k: int, m: nat)
    ensures k >= 1 ==> k * m >= m
  {}

  lemma Low128(x: int, y: int, lo: nat)
    requires x == y * 4096 + lo
    ensures x % 16 == lo % 16 && x % 4 == lo % 4
  {
    DivModOf(x, y * 256 + lo / 16, 16, lo % 16);
    DivModOf(x, y * 1024 + lo / 4, 4, lo % 4);
  }

  lemma Pieces128(lo: nat)
    requires lo < 4096
    ensures lo / 1024 * 1024 + lo / 4 % 256 * 4 + lo % 4 == lo == lo / 16 * 16 + lo % 16
    ensures lo % 4 * 64 / 64 == lo % 4 && lo % 16 * 16 / 16 == lo % 16
  {}

  lemma Exponent128Middle(biased: int)
    ensures var lo := biased % 16384 % 4096;
            biased / 16 % 256 == lo / 16 && biased / 1024 % 4 == lo / 1024 && biased / 4 % 256 == lo / 4 % 256
  {
    var q := biased / 4096;
    var lo := biased % 4096;
    assert biased % 16384 % 4096 == lo;
    Middle(biased, q, lo);
  }

  lemma Middle(x: int, q: int, lo: nat)
    requires x == q * 4096 + lo && lo < 4096
    ensures x / 16 % 256 == lo / 16 && x / 1024 % 4 == lo / 1024 && x / 4 % 256 == lo / 4 % 256
  {
    DivModOf(x, q * 256 + lo / 16, 16, lo % 16);
    DivModOf(x, q * 4 + lo / 1024, 1024, lo % 1024);
    DivModOf(x, q * 1024 + lo / 4, 4, lo % 4);
    DivModOf(x / 16, q, 256, lo / 16);
    DivModOf(x / 4, q * 4 + lo / 4 / 256, 256, lo / 4 % 256);
    DivModOf(x / 1024, q, 4, lo / 1024);
  }

  ghost predicate ReadsBack(w: Width, negative: bool, m: nat, msd: nat, b0: Byte, b1: Byte, b2: Byte) {
    && SignBit(b0) == negative
    && (msd >= 8 || m < 3 * w.Low() ==>
          Tag(b0) < 0x1E && ReadHeader(w, b0, b1, b2) == Fields(msd >= 8, msd, m) && IsLarge(b0) == (msd >= 8))
    && (msd < 8 && m >= 3 * w.Low() ==> IsLarge(b0) && (Tag(b0) >= 0x1E <==> msd >= 6))
  }

  lemma Header64ReadsBack(negative: bool, biased: int, msd: nat)
    requires msd < 10
    ensures var h := HeaderOf(Decimal64, negative, biased, msd);
            ReadsBack(Decimal64, negative, biased % 1024, msd, h[0], h[1], h[2])
  {
    var h, m := HeaderOf(Decimal64, negative, biased, msd), biased % 1024;
    Exponent64(biased);
    if msd >= 8 {
      LargeFirstByte(negative, m / 256, msd % 2, h[0]);
    } else {
      SmallFirstByte(negative, m / 256, msd, m % 256 / 64, h[0]);
    }
  }

  lemma Header128ReadsBack(negative: bool, biased: int, msd: nat)
    requires msd < 10
    ensures var h := HeaderOf(Decimal128, negative, biased, msd);
            ReadsBack(Decimal128, negative, biased % 16384, msd, h[0], h[1], h[2])
  {
    var h, m := HeaderOf(Decimal128, negative, biased, msd), biased % 16384;
    var hi, lo := m / 4096, m % 4096;
    Exponent128(biased);
    Exponent128Middle(biased);
    Pieces128(lo);
    if msd >= 8 {
      LargeFirstByte(negative, hi, msd % 2, h[0]);
      Large128(m, hi, lo, msd, negative, h[0], h[1], h[2]);
    } else {
      SmallFirstByte(negative, hi, msd, lo / 1024, h[0]);
      Small128(m, hi, lo, msd, negative, h[0], h[1], h[2]);
    }
  }

  lemma Large128(m: nat, hi: nat, lo: nat, msd: nat, negative: bool, b0: Byte, b1: Byte, b2: Byte)
    requires hi < 4 && m == hi * 4096 + lo && 8 <= msd < 10 && b1 * 16 + b2 / 16 == lo
    requires SignBit(b0) == negative && IsLarge(b0) && Tag(b0) == 24 + hi / 2 && b0 / 2 % 4 == hi && b0 % 2 == msd % 2
    ensures ReadsBack(Decimal128, negative, m, msd, b0, b1, b2)
  {}

  lemma Small128(m: nat, hi: nat, lo: nat, msd: nat, negative: bool, b0: Byte, b1: Byte, b2: Byte)
    requires hi < 4 && lo < 4096 && m == hi * 4096 + lo && msd < 8 && b0 % 4 * 1024 + b1 * 4 + b2 / 64 == lo
    requires SignBit(b0) == negative && b0 / 32 % 4 == hi && Tag(b0) == 8 * hi + msd && b0 / 4 % 8 == msd
    ensures ReadsBack(Decimal128, negative, m, msd, b0, b1, b2)
  {}

  // ---- The declets read back ----

  lemma {:induction false} MultipleClear(x: nat, n: nat, k: nat)
    requires k < n
    ensures !TestBit(x * Pow2(n), k)
  {
    assert x * Pow2(n) == 2 * (x * Pow2(n - 1));
    if k > 0 {
      MultipleClear(x, n - 1, k - 1);
    }
  }

  lemma MultiplesClear(x: nat, k: nat)
    ensures k < 2 ==> !TestBit(x * 4, k)
    ensures k < 4 ==> !TestBit(x * 16, k)
    ensures k < 6 ==> !TestBit(x * 64, k)
  {
    assert Pow2(2) == 4;
    assert Pow2(4) == 16;
    assert Pow2(6) == 64;
    if k < 2 {
      MultipleClear(x, 2, k);
    }
    if k < 4 {
      MultipleClear(x, 4, k);
    }
    if k < 6 {
      MultipleClear(x, 6, k);
    }
  }

  /** The header leaves the bits of the declets clear. */
  lemma ClearBehindHeader(w: Width, negative: bool, biased: int, msd: nat, pos: nat)
    requires msd < 10 && w.Start(msd >= 8) <= pos < 8 * w.Size()
    ensures !BitFrom(HeaderOf(w, negative, biased, msd), 0, pos)
  {
    var h := HeaderOf(w, negative, biased, msd);
    var i, k := pos / 8, 7 - pos % 8;
    BitFromIs(h, 0, pos);
    ZeroHasNoBits(k);
    if w.Decimal64? {
      if i == 1 {
        MultiplesClear(biased % 256 % 64, k);
      } else {
        assert h[i] == 0;
      }
    } else if i == 2 {
      MultiplesClear(biased % 16, k);
      MultiplesClear(biased % 4, k);
    } else {
      assert h[i] == 0;
    }
  }

  /** The bits from `start` on are these, as far as the field goes. */
  ghost predicate FieldBits(b: seq<Byte>, start: nat, bits: seq<bool>) {
    forall j | 0 <= j < |bits| && start + j < 8 * |b| :: BitFrom(b, 0, start + j) == bits[j]
  }

  lemma EncodedBits(w: Width, negative: bool, biased: int, coefficient: string, b: seq<Byte>)
    requires |coefficient| == w.Precision() && IsFiniteEncoding(w, negative, coefficient, biased, b)
    ensures FieldBits(b, w.Start(DigitOf(coefficient[0]) >= 8), TrailingBits(coefficient, w.Groups()))
  {
    hide BitFrom, HeaderOf, TrailingBits, Written;
    var msd := DigitOf(coefficient[0]);
    var start, bits, h := w.Start(msd >= 8), TrailingBits(coefficient, w.Groups()), HeaderOf(w, negative, biased, msd);
    forall j | 0 <= j < |bits| && start + j < 8 * |b| ensures BitFrom(b, 0, start + j) == bits[j] {
      FieldSize(w, h, b, msd >= 8, bits);
      ClearBehindHeader(w, negative, biased, msd, start + j);
      WrittenBit(h, b, start, bits, j);
    }
  }

  lemma WrittenBit(was: seq<Byte>, now: seq<Byte>, start: nat, bits: seq<bool>, j: nat)
    requires Written(was, now, start, bits) && j < |bits| && start + j < 8 * |was| && !BitFrom(was, 0, start + j)
    ensures BitFrom(now, 0, start + j) == bits[j]
  {
    hide BitFrom;
    assert BitFrom(now, 0, start + j) == (BitFrom(was, 0, start + j) || bits[start + j - start]);
  }

  /** Inside a longer buffer, the bits of the field are where they were, and behind it come those of what follows. */
  lemma BitsInside(pre: seq<Byte>, b: seq<Byte>, post: seq<Byte>, pos: nat)
    ensures BitFrom(pre + b + post, |pre|, pos) == if pos < 8 * |b| then BitFrom(b, 0, pos) else BitFrom(post, 0, pos - 8 * |b|)
  {
    BitFromIs(pre + b + post, |pre|, pos);
    if pos < 8 * |b| {
      BitFromIs(b, 0, pos);
      assert At(pre + b + post, |pre| + pos / 8) == At(b, pos / 8);
    } else {
      BitFromIs(post, 0, pos - 8 * |b|);
      SkipBytes(pos, |b|);
      assert At(pre + b + post, |pre| + pos / 8) == At(post, pos / 8 - |b|);
    }
  }

  lemma SkipBytes(pos: nat, n: nat)
    requires pos >= 8 * n
    ensures (pos - 8 * n) / 8 == pos / 8 - n && (pos - 8 * n) % 8 == pos % 8
  {}

  lemma {:induction false} TrailingBitsAt(digits: string, groups: nat, g: nat, i: nat)
    requires g < groups && i < 10
    ensures TrailingBits(digits, groups)[10 * g + i] == DecletBits(GroupCode(digits, g))[i]
  {
    hide DecletBits, GroupCode;
    if g < groups - 1 {
      TrailingBitsAt(digits, groups - 1, g, i);
    }
  }

  /** The two bits behind a field. */
  function NextBits(post: seq<Byte>): (bits: seq<bool>)
  {
    [BitFrom(post, 0, 0), BitFrom(post, 0, 1)]
  }

  /** A declet as it is read: behind a leading digit of 8 or 9 the last one lacks its two lowest bits. */
  function ReadBits(w: Width, coefficient: string, large: bool, post: seq<Byte>, g: nat): (bits: seq<bool>)
  {
    var bits := DecletBits(GroupCode(coefficient, g));
    if large && g == w.Groups() - 1 then bits[..8] + NextBits(post) else bits
  }

  lemma CodeReadsBack(w: Width, coefficient: string, large: bool, pre: seq<Byte>, b: seq<Byte>, post: seq<Byte>, g: nat)
    requires |b| == w.Size() && g < w.Groups()
    requires FieldBits(b, w.Start(large), TrailingBits(coefficient, w.Groups()))
    ensures CodeAt(pre + b + post, |pre|, w.Start(large) + 10 * g) == BitsNumber(ReadBits(w, coefficient, large, post, g))
  {
    hide BitFrom, DecletBits, GroupCode;
    var buf, start := pre + b + post, w.Start(large);
    var bits, read := TrailingBits(coefficient, w.Groups()), ReadBits(w, coefficient, large, post, g);
    forall i | 0 <= i < 10 ensures BitFrom(buf, |pre|, start + 10 * g + i) == read[i] {
      BitsInside(pre, b, post, start + 10 * g + i);
      TrailingBitsAt(coefficient, w.Groups(), g, i);
      assert bits[10 * g + i] == DecletBits(GroupCode(coefficient, g))[i];
      if start + (10 * g + i) < 8 * |b| {
        assert BitFrom(b, 0, start + (10 * g + i)) == bits[10 * g + i];
      }
    }
    assert BitsFrom(buf, |pre|, start + 10 * g, 10) == read;
  }

  // ---- The digits read back ----

  /** The number the `g`-th triple behind the leading digit stands for. */
  function GroupValue(digits: string, g: nat): (v: nat)
    ensures v < 1000
  {
    Tables.Value(DigitAt(digits, 1 + 3 * g), DigitAt(digits, 2 + 3 * g), DigitAt(digits, 3 + 3 * g))
  }

  predicate GroupOverwritten(digits: string, g: nat) {
    Tables.Overwritten(DigitAt(digits, 1 + 3 * g), DigitAt(digits, 2 + 3 * g), DigitAt(digits, 3 + 3 * g))
  }

  lemma ThreeDigits(v: nat)
    requires v < 1000
    ensures PadStart(NatText(v), 3) == FixedText(v, 3)
  {
    assert FixedText(v, 3) == [DigitChar(v / 10 / 10 % 10), DigitChar(v / 10 % 10), DigitChar(v % 10)];
    if v < 10 {
      assert NatText(v) == [DigitChar(v)];
      assert Repeat('0', 2) == "00";
    } else if v < 100 {
      TwoDigits(v);
    } else {
      assert NatText(v / 10 / 10) == [DigitChar(v / 10 / 10)];
    }
  }

  lemma TwoDigits(v: nat)
    requires 10 <= v < 100
    ensures PadStart(NatText(v), 3) == [DigitChar(v / 10 / 10 % 10), DigitChar(v / 10 % 10), DigitChar(v % 10)]
  {
    assert NatText(v / 10) == [DigitChar(v / 10)];
    assert Repeat('0', 1) == "0";
  }

  lemma TripleValue(digits: string, g: nat)
    requires AllDigits(digits) && 4 + 3 * g <= |digits|
    ensures ValueOf(digits[1 + 3 * g..4 + 3 * g]) == GroupValue(digits, g)
  {
    var a, b, c := digits[1 + 3 * g], digits[2 + 3 * g], digits[3 + 3 * g];
    assert digits[1 + 3 * g..4 + 3 * g] == [a, b, c];
    ValueOfThree(a, b, c);
  }

  lemma ValueOfThree(a: char, b: char, c: char)
    ensures ValueOf([a, b, c]) == 100 * DigitOf(a) + 10 * DigitOf(b) + DigitOf(c)
  {
    assert [a, b, c][..2] == [a, b] && [a, b][..1] == [a] && [a][..0] == [];
    assert ValueOf([a]) == DigitOf(a);
    assert ValueOf([a, b]) == 10 * DigitOf(a) + DigitOf(b);
  }

  /** Three digits are these exactly when their number is. */
  lemma TripleSame(digits: string, g: nat, v: nat)
    requires AllDigits(digits) && 4 + 3 * g <= |digits| && v < 1000
    ensures FixedText(v, 3) == digits[1 + 3 * g..4 + 3 * g] <==> v == GroupValue(digits, g)
  {
    var t := digits[1 + 3 * g..4 + 3 * g];
    TripleValue(digits, g);
    FixedTextOfValue(t);
    if FixedText(v, 3) == t {
      assert Pow10(3) == 1000;
      FixedTextInjective(v, ValueOf(t), 3);
    }
  }

  lemma {:induction false} TrailingShape(buf: seq<Byte>, offset: nat, start: nat, n: nat)
    ensures |Trailing(buf, offset, start, n)| == 3 * n && AllDigits(Trailing(buf, offset, start, n))
  {
    hide CodeAt;
    if n > 0 {
      TrailingShape(buf, offset, start, n - 1);
      ThreeDigits(Tables.Decode(CodeAt(buf, offset, start + 10 * (n - 1))));
    }
  }

  ghost predicate Kept(buf: seq<Byte>, offset: nat, start: nat, digits: string, g: nat) {
    Tables.Decode(CodeAt(buf, offset, start + 10 * g)) == GroupValue(digits, g)
  }

  lemma {:induction false} TrailingSame(buf: seq<Byte>, offset: nat, start: nat, digits: string, n: nat)
    requires AllDigits(digits) && 1 + 3 * n <= |digits|
    ensures Trailing(buf, offset, start, n) == digits[1..1 + 3 * n] <==> forall g | 0 <= g < n :: Kept(buf, offset, start, digits, g)
  {
    hide CodeAt, Kept;
    if n > 0 {
      TrailingSame(buf, offset, start, digits, n - 1);
      TrailingShape(buf, offset, start, n - 1);
      var s := LastTriple(buf, offset, start, digits, n);
      ExtendSame(Trailing(buf, offset, start, n - 1), s, Trailing(buf, offset, start, n), digits, n);
    }
  }

  lemma ExtendSame(front: string, s: string, all: string, digits: string, n: nat)
    requires n > 0 && 1 + 3 * n <= |digits| && |front| == 3 * (n - 1) && all == front + s
    ensures all == digits[1..1 + 3 * n] <==> front == digits[1..1 + 3 * (n - 1)] && s == digits[1 + 3 * (n - 1)..4 + 3 * (n - 1)]
  {
    var f, t := digits[1..1 + 3 * (n - 1)], digits[1 + 3 * (n - 1)..4 + 3 * (n - 1)];
    assert digits[1..1 + 3 * n] == f + t;
    ConcatSame(front, s, f, t);
  }

  lemma ConcatSame(a: string, b: string, a': string, b': string)
    requires |a| == |a'|
    ensures a + b == a' + b' <==> a == a' && b == b'
  {
    if a + b == a' + b' {
      assert a == (a + b)[..|a|] && a' == (a' + b')[..|a|];
      assert b == (a + b)[|a|..] && b' == (a' + b')[|a|..];
    }
  }

  lemma LastTriple(buf: seq<Byte>, offset: nat, start: nat, digits: string, n: nat) returns (s: string)
    requires n > 0 && AllDigits(digits) && 1 + 3 * n <= |digits|
    ensures |s| == 3 && Trailing(buf, offset, start, n) == Trailing(buf, offset, start, n - 1) + s
    ensures s == digits[1 + 3 * (n - 1)..4 + 3 * (n - 1)] <==> Kept(buf, offset, start, digits, n - 1)
  {
    hide CodeAt, Tables.Decode, GroupValue;
    var v := Tables.Decode(CodeAt(buf, offset, start + 10 * (n - 1)));
    ThreeDigits(v);
    TripleSame(digits, n - 1, v);
    TrailingStep(buf, offset, start, n, v);
    s := FixedText(v, 3);
  }

  lemma TrailingStep(buf: seq<Byte>, offset: nat, start: nat, n: nat, v: nat)
    requires n > 0 && v == Tables.Decode(CodeAt(buf, offset, start + 10 * (n - 1)))
    ensures Trailing(buf, offset, start, n) == Trailing(buf, offset, start, n - 1) + PadStart(NatText(v), 3)
  {
    hide CodeAt, Tables.Decode;
  }

  // ---- Which declets keep their digits ----

  lemma CutDeclet(d0: nat, d1: nat, d2: nat, code: nat, next: seq<bool>)
    requires d0 < 10 && d1 < 10 && d2 < 10 && |next| == 2 && code == Tables.EncodeTriple(d0, d1, d2)
    ensures Tables.Decode(BitsNumber(DecletBits(code)[..8] + next)) == Tables.Value(d0, d1, d2)
        <==> !Tables.Overwritten(d0, d1, d2) && next == DecletBits(code)[8..]
  {
    var bits := DecletBits(code);
    var read := bits[..8] + next;
    DecletNumber(code);
    Tables.ComesBackIff(d0, d1, d2);
    assert bits == bits[..8] + bits[8..];
    if next != bits[8..] {
      assert read != bits;
      if BitsNumber(read) == code {
        BitsNumberInjective(read, bits);
      }
      CutDecletLost(d0, d1, d2, code, BitsNumber(read), bits, next);
    }
  }

  lemma CutDecletLost(d0: nat, d1: nat, d2: nat, code: nat, read: nat, bits: seq<bool>, next: seq<bool>)
    requires d0 < 10 && d1 < 10 && d2 < 10 && code == Tables.EncodeTriple(d0, d1, d2) && read != code
    requires |next| == 2 && bits == DecletBits(code) && read == BitsNumber(bits[..8] + next)
    ensures Tables.Decode(read) != Tables.Value(d0, d1, d2)
  {
    if Tables.Decode(read) > 0 {
      OtherCode(d0, d1, d2, code, read);
    } else if d0 == d1 == d2 == 0 {
      Tables.SmallCodes(0);
      ZeroTriple(read, next);
    }
  }

  lemma OtherCode(d0: nat, d1: nat, d2: nat, code: nat, read: nat)
    requires d0 < 10 && d1 < 10 && d2 < 10 && code == Tables.EncodeTriple(d0, d1, d2) && read != code
    requires Tables.Decode(read) > 0
    ensures Tables.Decode(read) != Tables.Value(d0, d1, d2)
  {
    hide Tables.Decode;
    Tables.DecodedHasCode(read);
    Tables.DigitsOfValue(d0, d1, d2);
  }

  /** The declet of 000 is 0, and the numbers it can turn into by its two lowest bits are those of 001 to 003. */
  lemma ZeroTriple(read: nat, next: seq<bool>)
    requires |next| == 2 && read == BitsNumber(DecletBits(0)[..8] + next) && read != 0
    ensures Tables.Decode(read) > 0
  {
    ClearBitsNumber(DecletBits(0)[..8], next);
    Tables.SmallCodes(read);
  }

  lemma ClearBitsNumber(front: seq<bool>, next: seq<bool>)
    requires |next| == 2 && |front| == 8 && front == DecletBits(0)[..8]
    ensures BitsNumber(front + next) < 4
  {
    forall i | 0 <= i < 8 ensures !front[i] {
      ZeroHasNoBits(9 - i);
    }
    NoBitsNumber(front);
    assert (front + next)[..9] == front + [next[0]];
    assert (front + [next[0]])[..8] == front;
  }

  lemma {:induction false} NoBitsNumber(bits: seq<bool>)
    requires forall i | 0 <= i < |bits| :: !bits[i]
    ensures BitsNumber(bits) == 0
  {
    if bits != [] {
      NoBitsNumber(bits[..|bits| - 1]);
    }
  }

  // ---- Comparing magnitudes ----

  lemma {:induction false} PowerAdd(e: int, k: nat)
    ensures Power(e + k) == Pow10(k) as real * Power(e)
  {
    hide Power;
    if k > 0 {
      PowerAdd(e, k - 1);
      PowerStep(e + k - 1);
      TenTimes(Pow10(k - 1), Power(e));
    }
  }

  lemma TenTimes(p: nat, q: real)
    ensures 10.0 * (p as real * q) == (10 * p) as real * q
  {}

  lemma PadMagnitude(x: string, k: nat, e: int)
    ensures Magnitude(x + Repeat('0', k), e - k) == Magnitude(x, e)
  {
    hide Power, Magnitude, Repeat, ValueOf, Pow10;
    PadValue(x, k);
    PowerAdd(e - k, k);
    ScaleMagnitude(x + Repeat('0', k), e - k, x, e, Pow10(k));
  }

  lemma PadValue(x: string, k: nat)
    ensures ValueOf(x + Repeat('0', k)) == ValueOf(x) * Pow10(k)
  {
    hide Pow10;
    ValueOfConcat(x, Repeat('0', k));
    ValueOfZeros(k);
  }

  lemma ScaleMagnitude(a: string, ea: int, b: string, eb: int, p: nat)
    requires ValueOf(a) == ValueOf(b) * p && Power(eb) == p as real * Power(ea)
    ensures Magnitude(a, ea) == Magnitude(b, eb)
  {
    hide Power, Product;
    ScaleProduct(ValueOf(a), ValueOf(b), p, Power(ea), Power(eb));
  }

  lemma ScaleProduct(va: nat, vb: nat, p: nat, qa: real, qb: real)
    requires va == vb * p && qb == p as real * qa
    ensures Product(va, qa) == Product(vb, qb)
  {
    Regroup(vb, p, qa);
  }

  lemma Regroup(v: nat, p: nat, q: real)
    ensures (v * p) as real * q == v as real * (p as real * q)
  {}

  lemma LeadingDigitBound(x: string)
    requires AllDigits(x) && x != [] && x[0] != '0'
    ensures ValueOf(x) >= Pow10(|x| - 1)
  {
    assert x == [x[0]] + x[1..];
    ValueOfConcat([x[0]], x[1..]);
    assert [x[0]][..0] == [];
    assert ValueOf([x[0]]) == DigitOf(x[0]) >= 1;
    AtLeastOnce(DigitOf(x[0]), Pow10(|x| - 1));
  }

  lemma LargerExponent(x: string, ex: int, y: string, ey: int)
    requires AllDigits(y) && |x| == |y| && y != [] && y[0] != '0' && ex < ey
    ensures Magnitude(x, ex) < Magnitude(y, ey)
  {
    hide Power, Magnitude;
    ValueBound(x);
    LeadingDigitBound(y);
    PowerAdd(ex, ey - ex);
    assert Pow10(ey - ex) >= 10;
    Smaller(x, ex, y, ey, Pow10(|x| - 1), Pow10(ey - ex));
  }

  lemma Smaller(x: string, ex: int, y: string, ey: int, p: nat, r: nat)
    requires ValueOf(x) < 10 * p && p <= ValueOf(y) && 10 <= r && Power(ey) == r as real * Power(ex)
    ensures Magnitude(x, ex) < Magnitude(y, ey)
  {
    hide Power, Product;
    Chain(ValueOf(x), p, ValueOf(y), r, Power(ex), Power(ey));
  }

  lemma Chain(vx: nat, p: nat, vy: nat, r: nat, q: real, qy: real)
    requires vx < 10 * p && p <= vy && 10 <= r && q > 0.0 && qy == r as real * q
    ensures Product(vx, q) < Product(vy, qy)
  {
    MulUp(p, vy, 10, r);
    assert vx < vy * r;
    MulReal(vx, vy * r, q);
    Regroup(vy, r, q);
  }

  lemma MulUp(p: nat, v: nat, a: nat, r: nat)
    requires p <= v && a <= r
    ensures a * p <= v * r
  {
    assert a * p <= a * v;
    assert a * v <= r * v;
  }

  lemma MulReal(a: nat, b: nat, q: real)
    requires a < b && q > 0.0
    ensures a as real * q < b as real * q
  {}

  /** Coefficients of one length with a leading digit denote the same magnitude only if they and their exponents agree. */
  lemma SameMagnitudeIff(x: string, ex: int, y: string, ey: int)
    requires AllDigits(x) && AllDigits(y) && |x| == |y| && x != [] && x[0] != '0' && y[0] != '0'
    ensures Magnitude(x, ex) == Magnitude(y, ey) <==> x == y && ex == ey
  {
    hide Magnitude;
    if ex < ey {
      LargerExponent(x, ex, y, ey);
    } else if ey < ex {
      LargerExponent(y, ey, x, ex);
    } else if Magnitude(x, ex) == Magnitude(y, ey) {
      DigitsDecide(x, y, ex);
    }
  }

  lemma DigitsDecide(x: string, y: string, e: int)
    requires AllDigits(x) && AllDigits(y) && |x| == |y| && Magnitude(x, e) == Magnitude(y, e)
    ensures x == y
  {
    hide Magnitude;
    ValuesDecide(x, y, e);
    FixedTextOfValue(x);
    FixedTextOfValue(y);
  }

  lemma ValuesDecide(x: string, y: string, e: int)
    requires Magnitude(x, e) == Magnitude(y, e)
    ensures ValueOf(x) == ValueOf(y)
  {
    hide Power, Product;
    ProductDecides(ValueOf(x), ValueOf(y), Power(e));
  }

  lemma ProductDecides(vx: nat, vy: nat, q: real)
    requires q > 0.0 && Product(vx, q) == Product(vy, q)
    ensures vx == vy
  {
    if vx < vy {
      MulReal(vx, vy, q);
    } else if vy < vx {
      MulReal(vy, vx, q);
    }
  }

  /** Only zeros are cut off at the precision. */
  ghost predicate NothingCut(w: Width, digits: string) {
    forall i | w.Precision() <= i < |digits| :: digits[i] == '0'
  }

  lemma CompareShort(w: Width, digits: string, e: int, x: string, ex: int)
    requires AllDigits(digits) && AllDigits(x) && |x| == w.Precision() && digits != [] && digits[0] != '0' && x[0] != '0'
    requires |digits| <= w.Precision()
    ensures Magnitude(x, ex) == Magnitude(digits, e) <==> x == Coefficient(w, digits) && ex == e + |digits| - w.Precision()
  {
    hide Magnitude;
    var k := w.Precision() - |digits|;
    var c := digits + Repeat('0', k);
    PadMagnitude(digits, k, e);
    assert Coefficient(w, digits) == c by {
      assert k == 0 ==> c == digits;
    }
    assert c[0] == digits[0];
    SameMagnitudeIff(x, ex, c, e - k);
  }

  lemma CompareLong(w: Width, digits: string, e: int, x: string, ex: int)
    requires AllDigits(digits) && AllDigits(x) && |x| == w.Precision() && digits != [] && digits[0] != '0' && x[0] != '0'
    requires |digits| > w.Precision()
    ensures Magnitude(x, ex) == Magnitude(digits, e)
        <==> x == Coefficient(w, digits) && ex == e + |digits| - w.Precision() && NothingCut(w, digits)
  {
    hide Magnitude, AllDigits;
    var p := w.Precision();
    var k := |digits| - p;
    var c := x + Repeat('0', k);
    PadMagnitude(x, k, ex);
    assert c[0] == x[0];
    PaddedIsDigits(x, k);
    SameMagnitudeIff(c, ex - k, digits, e);
    assert Coefficient(w, digits) == digits[..p];
    assert digits == digits[..p] + digits[p..];
    ConcatSame(x, Repeat('0', k), digits[..p], digits[p..]);
    assert Repeat('0', k) == digits[p..] <==> NothingCut(w, digits) by {
      assert forall i | p <= i < |digits| :: digits[i] == digits[p..][i - p];
      if NothingCut(w, digits) {
        assert forall j | 0 <= j < k :: digits[p..][j] == digits[p + j];
      }
    }
  }

  lemma PaddedIsDigits(x: string, k: nat)
    requires AllDigits(x)
    ensures AllDigits(x + Repeat('0', k))
  {}

  lemma CompareCoefficients(w: Width, digits: string, e: int, x: string, ex: int)
    requires AllDigits(digits) && AllDigits(x) && |x| == w.Precision() && digits != [] && digits[0] != '0' && x[0] != '0'
    ensures Magnitude(x, ex) == Magnitude(digits, e)
        <==> x == Coefficient(w, digits) && ex == e + |digits| - w.Precision() && NothingCut(w, digits)
  {
    hide Magnitude, Coefficient;
    if |digits| <= w.Precision() {
      CompareShort(w, digits, e, x, ex);
    } else {
      CompareLong(w, digits, e, x, ex);
    }
  }

  // ---- Decoding a field ----

  lemma EncodedHeader(w: Width, negative: bool, c: string, biased: int, pre: seq<Byte>, b: seq<Byte>, post: seq<Byte>)
    requires |c| == w.Precision() && IsFiniteEncoding(w, negative, c, biased, b)
    ensures var msd := DigitOf(c[0]);
            var h := HeaderOf(w, negative, biased, msd);
            && |b| == w.Size() && At(pre + b + post, |pre|) == b[0] == h[0]
            && At(pre + b + post, |pre| + 1) == b[1] && At(pre + b + post, |pre| + 2) == b[2]
            && (msd >= 8 || Stored(w, biased) < 3 * w.Low() ==> ReadHeader(w, b[0], b[1], b[2]) == Fields(msd >= 8, msd, Stored(w, biased)))
  {
    hide Written, ReadHeader, HeaderOf;
    var msd := DigitOf(c[0]);
    var h := HeaderOf(w, negative, biased, msd);
    FieldSize(w, h, b, msd >= 8, TrailingBits(c, w.Groups()));
    HeaderReadsBack(w, negative, biased, msd);
    if msd >= 8 || Stored(w, biased) < 3 * w.Low() {
      HeaderKept(w, h, b, msd >= 8, TrailingBits(c, w.Groups()));
    } else {
      FirstByteKept(w, h, b, msd >= 8, TrailingBits(c, w.Groups()));
    }
  }

  lemma FieldSize(w: Width, h: seq<Byte>, b: seq<Byte>, large: bool, bits: seq<bool>)
    requires |h| == w.Size() && Written(h, b, w.Start(large), bits)
    ensures |b| == w.Size()
  {}

  lemma FirstByteKept(w: Width, h: seq<Byte>, b: seq<Byte>, large: bool, bits: seq<bool>)
    requires |h| == w.Size() && Written(h, b, w.Start(large), bits)
    ensures |b| == w.Size() && b[0] == h[0]
  {
    ByteKept(h, b, w.Start(large), bits, 0, 0);
  }

  /** A header whose exponent fits is read back, and the digits are printed with that exponent. */
  lemma DecodesReadable(w: Width, negative: bool, c: string, biased: int, pre: seq<Byte>, b: seq<Byte>, post: seq<Byte>)
    requires |c| == w.Precision() && IsFiniteEncoding(w, negative, c, biased, b)
    requires DigitOf(c[0]) >= 8 || Stored(w, biased) < 3 * w.Low()
    ensures var msd := DigitOf(c[0]);
            Decode(w, pre + b + post, |pre|)
            == FormatText(negative, [DigitChar(msd)] + Trailing(pre + b + post, |pre|, w.Start(msd >= 8), w.Groups()), Stored(w, biased) - w.Bias())
  {
    hide FormatText, IsFiniteEncoding, ReadHeader, HeaderOf, Stored, DigitOf, Decode, SignBit, Tag, IsLarge, Trailing, DigitChar;
    var msd := DigitOf(c[0]);
    EncodedHeader(w, negative, c, biased, pre, b, post);
    HeaderReadsBack(w, negative, biased, msd);
    DecodesFields(w, pre + b + post, |pre|, negative, Fields(msd >= 8, msd, Stored(w, biased)));
  }

  lemma DecodesFields(w: Width, buf: seq<Byte>, offset: nat, negative: bool, f: Fields)
    requires SignBit(At(buf, offset)) == negative && Tag(At(buf, offset)) < 0x1E
    requires f == ReadHeader(w, At(buf, offset), At(buf, offset + 1), At(buf, offset + 2))
    ensures f.msd < 10
    ensures Decode(w, buf, offset)
         == FormatText(negative, [DigitChar(f.msd)] + Trailing(buf, offset, w.Start(f.large), w.Groups()), f.biased - w.Bias())
  {
    hide FormatText, ReadHeader, SignBit, Tag, Trailing, DigitChar;
  }

  /** A first byte with both high exponent bits set is taken for a special value, or for a leading digit of 8 or 9. */
  lemma DecodesLarge(w: Width, negative: bool, pre: seq<Byte>, b: seq<Byte>, post: seq<Byte>)
      returns (special: bool, x: string, ex: int)
    requires |b| == w.Size() && IsLarge(b[0]) && SignBit(b[0]) == negative
    ensures special ==> Decode(w, pre + b + post, |pre|) in {"Infinity", "-Infinity", "NaN"}
    ensures !special ==> Decode(w, pre + b + post, |pre|) == FormatText(negative, x, ex)
    ensures |x| == w.Precision() && AllDigits(x) && DigitOf(x[0]) >= 8
  {
    hide FormatText, SignBit, IsLarge, Trailing;
    var buf := pre + b + post;
    assert At(buf, |pre|) == b[0];
    var f := ReadHeader(w, At(buf, |pre|), At(buf, |pre| + 1), At(buf, |pre| + 2));
    special := Tag(b[0]) >= 0x1E;
    assert "-" + "Infinity" == "-Infinity";
    TrailingShape(buf, |pre|, w.Start(true), w.Groups());
    x := [DigitChar(f.msd)] + Trailing(buf, |pre|, w.Start(true), w.Groups());
    ex := f.biased - w.Bias();
  }

  // ---- The round trip ----

  /** Every triple comes back: none is overwritten, and the low bits of a cut last declet are those that follow the field. */
  ghost predicate TriplesComeBack(w: Width, c: string, large: bool, post: seq<Byte>) {
    && (forall g | 0 <= g < w.Groups() :: !GroupOverwritten(c, g))
    && (large ==> NextBits(post) == DecletBits(GroupCode(c, w.Groups() - 1))[8..])
  }

  lemma GroupKeptIff(w: Width, c: string, large: bool, pre: seq<Byte>, b: seq<Byte>, post: seq<Byte>, g: nat)
    requires |b| == w.Size() && g < w.Groups() && FieldBits(b, w.Start(large), TrailingBits(c, w.Groups()))
    ensures Kept(pre + b + post, |pre|, w.Start(large), c, g)
        <==> !GroupOverwritten(c, g) && (large && g == w.Groups() - 1 ==> NextBits(post) == DecletBits(GroupCode(c, g))[8..])
  {
    hide BitFrom, FieldBits, DecletBits, Tables.EncodeTriple, Tables.Overwritten, Tables.Decode;
    var d0, d1, d2 := DigitAt(c, 1 + 3 * g), DigitAt(c, 2 + 3 * g), DigitAt(c, 3 + 3 * g);
    CodeReadsBack(w, c, large, pre, b, post, g);
    if large && g == w.Groups() - 1 {
      CutDeclet(d0, d1, d2, GroupCode(c, g), NextBits(post));
    } else {
      DecletNumber(GroupCode(c, g));
      Tables.ComesBackIff(d0, d1, d2);
    }
  }

  /** The digits are read back exactly when every triple comes back. */
  lemma DigitsReadBackIff(w: Width, c: string, pre: seq<Byte>, b: seq<Byte>, post: seq<Byte>, large: bool)
    requires |b| == w.Size() && AllDigits(c) && |c| == w.Precision()
    requires FieldBits(b, w.Start(large), TrailingBits(c, w.Groups()))
    ensures Trailing(pre + b + post, |pre|, w.Start(large), w.Groups()) == c[1..] <==> TriplesComeBack(w, c, large, post)
  {
    hide BitFrom, FieldBits, DecletBits, GroupOverwritten, Kept, Trailing, TrailingBits, GroupCode, NextBits;
    var buf := pre + b + post;
    assert c[1..1 + 3 * w.Groups()] == c[1..];
    TrailingSame(buf, |pre|, w.Start(large), c, w.Groups());
    forall g | 0 <= g < w.Groups()
      ensures Kept(buf, |pre|, w.Start(large), c, g)
          <==> !GroupOverwritten(c, g) && (large && g == w.Groups() - 1 ==> NextBits(post) == DecletBits(GroupCode(c, g))[8..])
    {
      GroupKeptIff(w, c, large, pre, b, post, g);
    }
  }

  /** The number comes back: its exponent fits the field, nothing but zeros is cut off, and every triple comes back. */
  ghost predicate Preserved(w: Width, digits: string, e: int, post: seq<Byte>)
    requires digits != []
  {
    var m := Stored(w, Biased(w, digits, Some(e)));
    var large := DigitOf(digits[0]) >= 8;
    if digits == "0" then m < 3 * w.Low()
    else
      && m == e + |digits| - w.Precision() + w.Bias()
      && (large || m < 3 * w.Low())
      && NothingCut(w, digits)
      && TriplesComeBack(w, Coefficient(w, digits), large, post)
  }

  lemma DenotesOne(text: string, negative: bool, a: real, b: real)
    requires Denotes(text, negative, a)
    ensures Denotes(text, negative, b) <==> a == b
  {
    hide ParseNumber;
  }

  lemma SpecialIsNoNumber(text: string, negative: bool, a: real)
    requires text in {"Infinity", "-Infinity", "NaN"}
    ensures !Denotes(text, negative, a)
  {
    TrimKeeps(text);
  }

  lemma CoefficientStart(w: Width, digits: string)
    requires AllDigits(digits) && digits != []
    ensures AllDigits(Coefficient(w, digits)) && Coefficient(w, digits)[0] == digits[0]
  {}

  /** A field with a readable header: the digits printed are the coefficient's exactly when every triple comes back. */
  lemma ReadableField(w: Width, negative: bool, c: string, biased: int, pre: seq<Byte>, b: seq<Byte>, post: seq<Byte>)
      returns (x: string, ex: int)
    requires |c| == w.Precision() && AllDigits(c) && IsFiniteEncoding(w, negative, c, biased, b)
    requires DigitOf(c[0]) >= 8 || Stored(w, biased) < 3 * w.Low()
    ensures Denotes(Decode(w, pre + b + post, |pre|), negative, Magnitude(x, ex))
    ensures |x| == w.Precision() && AllDigits(x) && x[0] == c[0] && ex == Stored(w, biased) - w.Bias()
    ensures x == c <==> TriplesComeBack(w, c, DigitOf(c[0]) >= 8, post)
  {
    hide Denotes, Magnitude, FormatText, IsFiniteEncoding, FieldBits, TriplesComeBack, Trailing, Stored, Decode;
    var large := DigitOf(c[0]) >= 8;
    var t := Trailing(pre + b + post, |pre|, w.Start(large), w.Groups());
    EncodedHeader(w, negative, c, biased, pre, b, post);
    EncodedBits(w, negative, biased, c, b);
    DecodesReadable(w, negative, c, biased, pre, b, post);
    TrailingShape(pre + b + post, |pre|, w.Start(large), w.Groups());
    DigitsReadBackIff(w, c, pre, b, post, large);
    x, ex := [DigitChar(DigitOf(c[0]))] + t, Stored(w, biased) - w.Bias();
    assert x[1..] == t && c == [c[0]] + c[1..];
    FormatDenotes(negative, x, ex);
  }

  /** Zero comes back exactly when its exponent field is not all ones above. */
  lemma ZeroRoundTrip(w: Width, negative: bool, e: int, pre: seq<Byte>, b: seq<Byte>, post: seq<Byte>)
    requires IsFiniteEncoding(w, negative, Coefficient(w, "0"), Biased(w, "0", Some(e)), b)
    ensures Denotes(Decode(w, pre + b + post, |pre|), negative, Magnitude("0", e)) <==> Preserved(w, "0", e, post)
  {
    hide Denotes, Decode, IsFiniteEncoding, Power, Product, Stored, Biased, HeaderOf, ReadHeader, Tag, SignBit, IsLarge;
    var c, biased := Coefficient(w, "0"), Biased(w, "0", Some(e));
    CoefficientStart(w, "0");
    ZeroMagnitude("0", e);
    if Stored(w, biased) < 3 * w.Low() {
      var x, ex := ReadableField(w, negative, c, biased, pre, b, post);
      ZeroTriplesComeBack(w, c, post);
      ZeroMagnitude(c, ex);
    } else {
      EncodedHeader(w, negative, c, biased, pre, b, post);
      HeaderReadsBack(w, negative, biased, DigitOf(c[0]));
      var special, x, ex := DecodesLarge(w, negative, pre, b, post);
      if special {
        SpecialIsNoNumber(Decode(w, pre + b + post, |pre|), negative, Magnitude("0", e));
      } else {
        FormatDenotes(negative, x, ex);
        PositiveMagnitude(x, ex);
        DenotesOne(Decode(w, pre + b + post, |pre|), negative, Magnitude(x, ex), Magnitude("0", e));
      }
    }
  }

  lemma ZeroMagnitude(s: string, e: int)
    requires forall i | 0 <= i < |s| :: s[i] == '0'
    ensures Magnitude(s, e) == 0.0
  {
    assert s == Repeat('0', |s|);
    ValueOfZeros(|s|);
  }

  lemma PositiveMagnitude(x: string, e: int)
    requires AllDigits(x) && x != [] && x[0] != '0'
    ensures Magnitude(x, e) > 0.0
  {
    hide Power;
    LeadingDigitBound(x);
    MulReal(0, ValueOf(x), Power(e));
  }

  lemma ZeroTriplesComeBack(w: Width, c: string, post: seq<Byte>)
    requires c == Coefficient(w, "0")
    ensures TriplesComeBack(w, c, false, post) && forall i | 0 <= i < |c| :: c[i] == '0'
  {
    assert forall i | 0 <= i < |c| :: c[i] == '0';
    forall g | 0 <= g < w.Groups() ensures !GroupOverwritten(c, g) {
      assert DigitAt(c, 1 + 3 * g) == 0;
    }
  }

  lemma NonzeroRoundTrip(w: Width, negative: bool, digits: string, e: int, pre: seq<Byte>, b: seq<Byte>, post: seq<Byte>)
    requires AllDigits(digits) && digits != [] && digits[0] != '0'
    requires IsFiniteEncoding(w, negative, Coefficient(w, digits), Biased(w, digits, Some(e)), b)
    ensures Denotes(Decode(w, pre + b + post, |pre|), negative, Magnitude(digits, e)) <==> Preserved(w, digits, e, post)
  {
    hide Denotes, Decode, IsFiniteEncoding, Magnitude, Stored, Biased, Coefficient, TriplesComeBack, NothingCut, HeaderOf, ReadHeader, Tag, SignBit, IsLarge;
    var c, biased, text := Coefficient(w, digits), Biased(w, digits, Some(e)), Decode(w, pre + b + post, |pre|);
    CoefficientStart(w, digits);
    if DigitOf(c[0]) >= 8 || Stored(w, biased) < 3 * w.Low() {
      var x, ex := ReadableField(w, negative, c, biased, pre, b, post);
      CompareCoefficients(w, digits, e, x, ex);
      DenotesOne(text, negative, Magnitude(x, ex), Magnitude(digits, e));
    } else {
      EncodedHeader(w, negative, c, biased, pre, b, post);
      HeaderReadsBack(w, negative, biased, DigitOf(c[0]));
      var special, x, ex := DecodesLarge(w, negative, pre, b, post);
      if special {
        SpecialIsNoNumber(text, negative, Magnitude(digits, e));
      } else {
        FormatDenotes(negative, x, ex);
        CompareCoefficients(w, digits, e, x, ex);
        DenotesOne(text, negative, Magnitude(x, ex), Magnitude(digits, e));
      }
    }
  }

  lemma CanonicalShape(s: string)
    requires AllDigits(Canonical(s))
    ensures Canonical(s) != [] && (Canonical(s) == "0" || Canonical(s)[0] != '0')
  {
    StripShape(s);
  }

  lemma {:induction false} StripShape(s: string)
    ensures StripZeros(s) == [] || StripZeros(s)[0] != '0'
  {
    if s != [] {
      StripShape(s[1..]);
    }
  }

  lemma ParsedShape(str: string)
    requires ParseNumber(str).Finite? && AllDigits(ParseNumber(str).digits)
    ensures var digits := ParseNumber(str).digits;
            digits != [] && (digits == "0" || digits[0] != '0')
  {
    var s := Trim(str);
    var rest := if s != [] && (s[0] == '-' || s[0] == '+') then s[1..] else s;
    var mantissa := rest[..ExponentAt(rest)];
    var dot := Find(mantissa, '.');
    CanonicalShape(if dot < |mantissa| then mantissa[..dot] + mantissa[dot + 1..] else mantissa);
  }

  /**
   For every numeric string and either width: what is encoded and decoded again, wherever the field
   stands, denotes the same number with the same sign exactly when the number is `Preserved`.
   */
  lemma RoundTripIff(w: Width, str: string, pre: seq<Byte>, b: seq<Byte>, post: seq<Byte>)
    requires IsEncoding(w, str, b)
    requires ParseNumber(str).Finite? && AllDigits(ParseNumber(str).digits) && ParseNumber(str).exp.Some?
    ensures ParseNumber(str).digits != []
    ensures var n := ParseNumber(str);
            Denotes(Decode(w, pre + b + post, |pre|), n.negative, Magnitude(n.digits, n.exp.value))
            <==> Preserved(w, n.digits, n.exp.value, post)
  {
    var n := ParseNumber(str);
    ParsedShape(str);
    RoundTripParsed(w, n.negative, n.digits, n.exp.value, pre, b, post);
  }

  lemma RoundTripParsed(w: Width, negative: bool, digits: string, e: int, pre: seq<Byte>, b: seq<Byte>, post: seq<Byte>)
    requires AllDigits(digits) && digits != [] && (digits == "0" || digits[0] != '0')
    requires IsFiniteEncoding(w, negative, Coefficient(w, digits), Biased(w, digits, Some(e)), b)
    ensures Denotes(Decode(w, pre + b + post, |pre|), negative, Magnitude(digits, e)) <==> Preserved(w, digits, e, post)
  {
    if digits == "0" {
      ZeroRoundTrip(w, negative, e, pre, b, post);
    } else {
      NonzeroRoundTrip(w, negative, digits, e, pre, b, post);
    }
  }

  /**
   The same from the text itself: a number written with these digits and this exponent is given back, as a
   number of `ValueOf(whole + fraction) * 10^(x - |fraction|)` with its sign, exactly when it is preserved.
   */
  lemma WrittenRoundTripIff(w: Width, n: WrittenNumber, pre: seq<Byte>, b: seq<Byte>, post: seq<Byte>)
    requires n.Valid() && IsEncoding(w, n.Text(), b)
    ensures Canonical(n.whole + n.fraction) != []
    ensures Denotes(Decode(w, pre + b + post, |pre|), n.sign == "-", ValueOf(n.whole + n.fraction) as real * Power(n.Exponent()))
            <==> Preserved(w, Canonical(n.whole + n.fraction), n.Exponent(), post)
  {
    hide IsEncoding, Denotes, Decode, Preserved, ParseNumber, Canonical, Power;
    WrittenIsRead(n);
    RoundTripIff(w, n.Text(), pre, b, post);
    MagnitudeIs(n);
  }

  lemma MagnitudeIs(n: WrittenNumber)
    requires n.Valid()
    ensures Magnitude(Canonical(n.whole + n.fraction), n.Exponent()) == ValueOf(n.whole + n.fraction) as real * Power(n.Exponent())
  {
    hide Canonical, Power, ValueOf;
    CanonicalKeepsValue(n.whole + n.fraction);
  }

  /** The front of a field as a number: sign, exponent and leading digit in places written out. */
  lemma HeaderDenotes(w: Width, negative: bool, biased: nat, msd: nat)
    requires msd < 10 && biased < 3 * w.Low()
    ensures var front, sign := HeaderFront(w, negative, biased, msd), if negative then 1 else 0;
            front == if w.Decimal64? then
              (if msd < 8 then 0x8000 * sign + 0x2000 * (biased / 256) + 0x400 * msd + 4 * (biased % 256)
               else 0x8000 * sign + 0x6000 + 0x200 * (biased / 256) + 0x100 * (msd - 8) + biased % 256)
            else
              (if msd < 8 then 0x8000_0000 * sign + 0x2000_0000 * (biased / 4096) + 0x400_0000 * msd + 0x4000 * (biased % 4096)
               else 0x8000_0000 * sign + 0x6000_0000 + 0x200_0000 * (biased / 4096) + 0x100_0000 * (msd - 8) + 0x1000 * (biased % 4096))
  {
    hide BigEndian;
    if w.Decimal64? {
      Denotes64(negative, biased, msd);
    } else {
      Denotes128(negative, biased, msd);
    }
  }

  lemma Denotes64(negative: bool, biased: nat, msd: nat)
    requires msd < 10 && biased < 768
    ensures var sign := if negative then 1 else 0;
            HeaderFront(Decimal64, negative, biased, msd) ==
            if msd < 8 then 0x8000 * sign + 0x2000 * (biased / 256) + 0x400 * msd + 4 * (biased % 256)
            else 0x8000 * sign + 0x6000 + 0x200 * (biased / 256) + 0x100 * (msd - 8) + biased % 256
  {
    hide BigEndian;
    var h := HeaderOf(Decimal64, negative, biased, msd);
    BigEndianOfTwo(h[0], h[1]);
    assert h[..2] == [h[0], h[1]];
    SixtyFourFront(biased);
  }

  lemma Denotes128(negative: bool, biased: nat, msd: nat)
    requires msd < 10 && biased < 12288
    ensures var sign := if negative then 1 else 0;
            HeaderFront(Decimal128, negative, biased, msd) ==
            if msd < 8 then 0x8000_0000 * sign + 0x2000_0000 * (biased / 4096) + 0x400_0000 * msd + 0x4000 * (biased % 4096)
            else 0x8000_0000 * sign + 0x6000_0000 + 0x200_0000 * (biased / 4096) + 0x100_0000 * (msd - 8) + 0x1000 * (biased % 4096)
  {
    hide BigEndian;
    var h := HeaderOf(Decimal128, negative, biased, msd);
    BigEndianOfFour(h[0], h[1], h[2], h[3]);
    assert h[..4] == [h[0], h[1], h[2], h[3]];
    HundredFront(biased, biased % 4096);
  }

  function HeaderFront(w: Width, negative: bool, biased: nat, msd: nat): (v: nat)
    requires msd < 10
  {
    BigEndian(HeaderOf(w, negative, biased, msd)[..if w.Decimal64? then 2 else 4])
  }

  lemma SixtyFourFront(biased: nat)
    requires biased < 768
    ensures biased / 256 % 4 == biased / 256
    ensures 0x100 * (biased % 256 / 64) + biased % 256 % 64 * 4 == 4 * (biased % 256)
  {}

  lemma HundredFront(biased: nat, low: nat)
    requires biased < 12288 && low == biased % 4096
    ensures biased / 4096 % 4 == biased / 4096
    ensures 0x100_0000 * (biased / 1024 % 4) + 0x1_0000 * (biased / 4 % 256) + 0x100 * (biased % 4 * 64) == 0x4000 * low
    ensures 0x1_0000 * (biased / 16 % 256) + 0x100 * (biased % 16 * 16) == 0x1000 * low
  {
    var h := biased / 4096;
    InFours(biased, h, low / 1024, low % 1024 / 4, low % 4);
    InSixteens(biased, h, low / 16, low % 16);
  }

  lemma InFours(biased: nat, h: nat, a: nat, c: nat, d: nat)
    requires biased == 4096 * h + 1024 * a + 4 * c + d && h < 3 && a < 4 && c < 256 && d < 4
    ensures biased / 1024 % 4 == a && biased / 4 % 256 == c && biased % 4 == d
  {
    assert biased / 1024 == 4 * h + a;
    assert biased / 4 == 1024 * h + 256 * a + c;
  }

  lemma InSixteens(biased: nat, h: nat, e: nat, f: nat)
    requires biased == 4096 * h + 16 * e + f && h < 3 && e < 256 && f < 16
    ensures biased / 16 % 256 == e && biased % 16 == f
  {
    assert biased / 16 == 256 * h + e;
  }

  /** The front that section 3.5.2 of IEEE Std 754-2008 gives these parts. */
  function StandardFront(w: Width, negative: bool, biased: nat, msd: nat): (v: nat) {
    var sign, unit := if negative then 1 else 0, if w.Decimal64? then 4 else 0x4000;
    var high, low := biased / w.Low(), biased % w.Low();
    (if w.Decimal64? then 0x8000 else 0x8000_0000) * sign +
    unit * (low + w.Low() * if msd < 8 then 8 * high + msd else 24 + 2 * high + (msd - 8))
  }

  /** It is what the encoder writes unless the leading digit is 8 or 9: then only for the digit 8 and the lowest exponent. */
  lemma StandardFrontIff(w: Width, negative: bool, biased: nat, msd: nat)
    requires msd < 10 && biased < 3 * w.Low()
    ensures HeaderFront(w, negative, biased, msd) == StandardFront(w, negative, biased, msd) <==> msd < 8 || (msd == 8 && biased == 0)
  {
    hide HeaderFront;
    HeaderDenotes(w, negative, biased, msd);
  }

  /** Bit `k` of the `g`-th declet behind the front, both counted from 0, highest bit first. */
  lemma DecletStands(w: Width, negative: bool, biased: int, coefficient: string, b: seq<Byte>, g: nat, k: nat)
    requires |coefficient| == w.Precision() && IsFiniteEncoding(w, negative, coefficient, biased, b)
    requires g < w.Groups() && k < 10
    ensures var p := (if w.Decimal64? then 14 else 18) + (if DigitOf(coefficient[0]) >= 8 then 2 else 0) + 10 * g + k;
            p < 8 * |b| ==>
              TestBit(b[p / 8], 7 - p % 8)
              == TestBit(Tables.EncodeTriple(DigitOf(coefficient[1 + 3 * g]), DigitOf(coefficient[2 + 3 * g]), DigitOf(coefficient[3 + 3 * g])), 9 - k)
  {
    hide BitFrom, IsFiniteEncoding, DecletBits, Tables.EncodeTriple, TestBit, TrailingBits;
    var start, bits := w.Start(DigitOf(coefficient[0]) >= 8), TrailingBits(coefficient, w.Groups());
    EncodedBits(w, negative, biased, coefficient, b);
    TrailingBitsAt(coefficient, w.Groups(), g, k);
    BitFromIs(b, 0, start + (10 * g + k));
    DecletBitIs(GroupCode(coefficient, g), k);
  }

  lemma DecletBitIs(c: nat, k: nat)
    requires k < 10
    ensures DecletBits(c)[k] == TestBit(c, 9 - k)
  {}

  /** The first byte of what is not finite; the others are zero. */
  lemma SpecialFields(w: Width, b: seq<Byte>)
    ensures IsEncoding(w, "Infinity", b) <==> |b| == w.Size() && b[0] == 0x78 && forall i | 1 <= i < |b| :: b[i] == 0
    ensures IsEncoding(w, "-Infinity", b) <==> |b| == w.Size() && b[0] == 0xF8 && forall i | 1 <= i < |b| :: b[i] == 0
    ensures IsEncoding(w, "NaN", b) <==> |b| == w.Size() && b[0] == 0x7C && forall i | 1 <= i < |b| :: b[i] == 0
  {
    hide ParseNumber;
    SpecialTexts();
    assert "-" + "Infinity" == "-Infinity";
    SpecialField(w, 0x78, b);
    SpecialField(w, 0xF8, b);
    SpecialField(w, 0x7C, b);
  }

  lemma SpecialField(w: Width, first: Byte, b: seq<Byte>)
    ensures b == [first] + Zeros(w.Size() - 1) <==> |b| == w.Size() && b[0] == first && forall i | 1 <= i < |b| :: b[i] == 0
  {}

  /** Infinities keep their sign, and what is not a number stays so. */
  lemma SpecialsRoundTrip(w: Width, str: string, pre: seq<Byte>, b: seq<Byte>, post: seq<Byte>)
    requires IsEncoding(w, str, b) && !ParseNumber(str).Finite?
    ensures ParseNumber(Decode(w, pre + b + post, |pre|)) == ParseNumber(str)
  {
    hide ParseNumber, FormatText, Trailing, ReadHeader;
    assert At(pre + b + post, |pre|) == b[0];
    SpecialTexts();
  }

  lemma SpecialTexts()
    ensures ParseNumber("Infinity") == Infinite(false) && ParseNumber("NaN") == NotANumber
    ensures ParseNumber("-" + "Infinity") == Infinite(true)
  {
    TrimKeeps("Infinity");
    TrimKeeps("-Infinity");
    TrimKeeps("NaN");
    assert "-" + "Infinity" == "-Infinity";
  }

  /** Every number that fits, with digits 0 to 7 only, comes back. */
  lemma SmallDigitsComeBack(w: Width, digits: string, e: int, post: seq<Byte>)
    requires digits != [] && |digits| <= w.Precision() && digits[0] != '0'
    requires forall i | 0 <= i < |digits| :: '0' <= digits[i] <= '7'
    requires 0 <= e + |digits| - w.Precision() + w.Bias() < 3 * w.Low()
    ensures Preserved(w, digits, e, post)
  {
    var c := Coefficient(w, digits);
    assert Stored(w, Biased(w, digits, Some(e))) == Biased(w, digits, Some(e));
    forall g | 0 <= g < w.Groups() ensures !GroupOverwritten(c, g) {
      SmallTriple(w, digits, c, g);
    }
  }

  /** The same with the ranges written out. */
  lemma SmallDigitsInRange(w: Width, digits: string, e: int, post: seq<Byte>)
    requires digits != [] && digits[0] != '0' && forall i | 0 <= i < |digits| :: '0' <= digits[i] <= '7'
    requires w.Decimal64? ==> |digits| <= 16 && -398 <= e + |digits| - 16 <= 369
    requires w.Decimal128? ==> |digits| <= 34 && -6176 <= e + |digits| - 34 <= 6111
    ensures Preserved(w, digits, e, post)
  {
    SmallDigitsComeBack(w, digits, e, post);
  }

  lemma SmallTriple(w: Width, digits: string, c: string, g: nat)
    requires |digits| <= w.Precision() && c == Coefficient(w, digits)
    requires forall i | 0 <= i < |digits| :: '0' <= digits[i] <= '7'
    ensures !GroupOverwritten(c, g)
  {
    assert forall i | 0 <= i < |c| :: '0' <= c[i] <= '7';
    assert DigitAt(c, 1 + 3 * g) < 8 && DigitAt(c, 2 + 3 * g) < 8 && DigitAt(c, 3 + 3 * g) < 8;
  }

  lemma {:induction false} StripPadding(x: string, k: nat, e: int)
    requires x != [] && x[|x| - 1] != '0'
    ensures StripTrailing(x + Repeat('0', k), e - k) == (x, e)
  {
    var s := x + Repeat('0', k);
    if k == 0 {
      assert s == x;
    } else {
      assert s[..|s| - 1] == x + Repeat('0', k - 1);
      StripPadding(x, k - 1, e);
    }
  }

  /** A coefficient that is a padded integer prints as that integer. */
  lemma PrintsInteger(w: Width, x: string)
    requires x != [] && |x| <= w.Precision() && x[0] != '0' && x[|x| - 1] != '0'
    ensures FormatText(false, Coefficient(w, x), |x| - w.Precision()) == x
  {
    StripPadding(x, w.Precision() - |x|, 0);
    assert x + Repeat('0', 0) == x;
  }

  lemma ReadsInteger(x: string)
    requires AllDigits(x) && x != [] && x[0] != '0'
    ensures ParseNumber(x) == Finite(false, x, Some(0))
  {
    hide ParseNumber;
    ReadsPlain(false, x);
    FindAfter(x, '.', []);
    assert x + [] == x;
  }

  /** Declets of one coefficient that decode to the triples of another are read as these. */
  lemma GroupRead(w: Width, c: string, d: string, pre: seq<Byte>, b: seq<Byte>, post: seq<Byte>, g: nat)
    requires |c| == |d| == w.Precision() && |b| == w.Size() && g < w.Groups()
    requires FieldBits(b, w.Start(false), TrailingBits(c, w.Groups())) && Tables.Decode(GroupCode(c, g)) == GroupValue(d, g)
    ensures Kept(pre + b + post, |pre|, w.Start(false), d, g)
  {
    hide FieldBits, DecletBits, GroupCode, GroupValue, Tables.Decode, TrailingBits, CodeAt;
    CodeReadsBack(w, c, false, pre, b, post, g);
    DecletNumber(GroupCode(c, g));
  }

  lemma GroupsRead(w: Width, c: string, d: string, pre: seq<Byte>, b: seq<Byte>, post: seq<Byte>)
    requires |c| == |d| == w.Precision() && |b| == w.Size()
    requires FieldBits(b, w.Start(false), TrailingBits(c, w.Groups()))
    requires forall g | 0 <= g < w.Groups() :: Tables.Decode(GroupCode(c, g)) == GroupValue(d, g)
    ensures forall g | 0 <= g < w.Groups() :: Kept(pre + b + post, |pre|, w.Start(false), d, g)
  {
    hide FieldBits, Kept, TrailingBits, GroupCode, GroupValue, Tables.Decode;
    forall g | 0 <= g < w.Groups() ensures Kept(pre + b + post, |pre|, w.Start(false), d, g) {
      GroupRead(w, c, d, pre, b, post, g);
    }
  }

  lemma NinetyNineDecoded(w: Width, g: nat)
    ensures Tables.Decode(GroupCode(Coefficient(w, "1099"), g)) == GroupValue(Coefficient(w, "1891"), g)
  {
    hide Tables.EncodeTriple, Tables.Decode, Tables.Overwritten;
    var c, c' := Coefficient(w, "1099"), Coefficient(w, "1891");
    if g == 0 {
      assert c[..4] == "1099" && c'[..4] == "1891";
      assert c[1] == '0' && c[2] == '9' && c[3] == '9' && c'[1] == '8' && c'[2] == '9' && c'[3] == '1';
      Tables.NinetyNineTurnsInto891();
    } else {
      ZeroDigits(w, "1099", g);
      ZeroDigits(w, "1891", g);
      Tables.SmallComesBack(DigitAt(c, 1 + 3 * g), DigitAt(c, 2 + 3 * g), DigitAt(c, 3 + 3 * g));
    }
  }

  lemma ZeroDigits(w: Width, x: string, g: nat)
    requires |x| == 4 && g > 0
    ensures var c := Coefficient(w, x); DigitAt(c, 1 + 3 * g) == 0 && DigitAt(c, 2 + 3 * g) == 0 && DigitAt(c, 3 + 3 * g) == 0
  {}

  /** 1099 fits - its digits the precision, its exponent the field - but what comes back is 1891. */
  lemma OneThousandNinetyNineIsLost(w: Width, pre: seq<Byte>, b: seq<Byte>, post: seq<Byte>)
    requires IsEncoding(w, "1099", b)
    ensures |"1099"| <= w.Precision() && 0 <= Biased(w, "1099", Some(0)) < 3 * w.Low()
    ensures Decode(w, pre + b + post, |pre|) == "1891"
    ensures !Preserved(w, "1099", 0, post)
  {
    hide IsFiniteEncoding, ParseNumber, FieldBits, Kept, FormatText, Trailing, Decode, TrailingBits, Preserved, Coefficient, Stored, GroupCode, GroupValue, Tables.Decode;
    var c, biased := Coefficient(w, "1099"), Biased(w, "1099", Some(0));
    ReadsInteger("1099");
    CoefficientStart(w, "1099");
    StoredExponent(w);
    EncodedBits(w, false, biased, c, b);
    DecodesSmall(w, 1, c, biased, pre, b, post, pre + b + post, |pre|);
    forall g | 0 <= g < w.Groups() ensures Tables.Decode(GroupCode(c, g)) == GroupValue(Coefficient(w, "1891"), g) {
      NinetyNineDecoded(w, g);
    }
    GroupsRead(w, c, Coefficient(w, "1891"), pre, b, post);
    PrintsAs1891(w, pre + b + post, |pre|);
    NinetyNineOverwritten(w, post);
  }

  lemma StoredExponent(w: Width)
    ensures var biased := Biased(w, "1099", Some(0));
            0 <= biased < 3 * w.Low() && Stored(w, biased) == biased == 4 - w.Precision() + w.Bias()
  {}

  lemma DecodesSmall(w: Width, msd: nat, c: string, biased: int, pre: seq<Byte>, b: seq<Byte>, post: seq<Byte>, buf: seq<Byte>, n: nat)
    requires |c| == w.Precision() && AllDigits(c) && DigitOf(c[0]) == msd < 8 && IsFiniteEncoding(w, false, c, biased, b)
    requires Stored(w, biased) < 3 * w.Low() && buf == pre + b + post && n == |pre|
    ensures |b| == w.Size()
    ensures Decode(w, buf, n)
            == FormatText(false, [DigitChar(msd)] + Trailing(buf, n, w.Start(false), w.Groups()), Stored(w, biased) - w.Bias())
  {
    hide IsFiniteEncoding, FormatText, Trailing, Decode, Stored;
    EncodedHeader(w, false, c, biased, pre, b, post);
    DecodesReadable(w, false, c, biased, pre, b, post);
  }

  lemma PrintsAs1891(w: Width, buf: seq<Byte>, offset: nat)
    requires forall g | 0 <= g < w.Groups() :: Kept(buf, offset, w.Start(false), Coefficient(w, "1891"), g)
    ensures FormatText(false, [DigitChar(1)] + Trailing(buf, offset, w.Start(false), w.Groups()), 4 - w.Precision()) == "1891"
  {
    hide Kept, FormatText, Trailing;
    var c := Coefficient(w, "1891");
    CoefficientStart(w, "1891");
    TrailingSame(buf, offset, w.Start(false), c, w.Groups());
    assert c[1..1 + 3 * w.Groups()] == c[1..];
    assert c == [DigitChar(1)] + c[1..];
    PrintsInteger(w, "1891");
  }

  lemma NinetyNineOverwritten(w: Width, post: seq<Byte>)
    ensures !Preserved(w, "1099", 0, post)
  {
    var c := Coefficient(w, "1099");
    assert c[..4] == "1099";
    assert c[1] == '0' && c[2] == '9' && c[3] == '9';
    assert GroupOverwritten(c, 0);
  }
}
