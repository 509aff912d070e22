/** Bytes, big-endian integers, and the bits of a byte, shared by every codec. */
module Bytes {

  type Byte = x: int | 0 <= x < 256

  const TWO_16: int := 0x1_0000
  const TWO_32: int := 0x1_0000_0000

  /** The bytes `buf.writeUInt16BE` stores for a value in range. */
  function U16(v: nat): (r: seq<Byte>)
    requires v < TWO_16
    ensures |r| == 2 && GetU16(r, 0) == v
  {
    [v / 256, v % 256]
  }

  /** The bytes `buf.writeUInt32BE` stores for a value in range. */
  function U32(v: nat): (r: seq<Byte>)
    requires v < TWO_32
    ensures |r| == 4 && GetU32(r, 0) == v
  {
    DigitsOfWord(v);
    [v / 0x100_0000, v / TWO_16 % 256, v / 256 % 256, v % 256]
  }

  lemma DigitsOfWord(v: nat)
    requires v < TWO_32
    ensures v / 0x100_0000 < 256
    ensures v == v / 0x100_0000 * 0x100_0000 + v / TWO_16 % 256 * TWO_16 + v / 256 % 256 * 256 + v % 256
  {
    var q, d := v / 256, v % 256;
    var p, c := q / 256, q % 256;
    assert v == 256 * q + d && q == 256 * p + c;
    assert v / TWO_16 == p;
    assert v / 0x100_0000 == p / 256;
  }

  /** `buf.readUInt16BE(at)`. */
  function GetU16(b: seq<Byte>, at: nat): (v: nat)
    requires at + 2 <= |b|
    ensures v < TWO_16
  {
    b[at] as int * 256 + b[at + 1]
  }

  /** `buf.readUInt32BE(at)`. */
  function GetU32(b: seq<Byte>, at: nat): (v: nat)
    requires at + 4 <= |b|
    ensures v < TWO_32
  {
    b[at] as int * 0x100_0000 + b[at + 1] as int * TWO_16 + b[at + 2] as int * 256 + b[at + 3]
  }

  /** A byte of a buffer; reading past the end gives `undefined`, whose bits are zero. */
  function At(buf: seq<Byte>, i: nat): (b: Byte) {
    if i < |buf| then buf[i] else 0
  }

  function Pow256(n: nat): (p: nat)
    ensures p > 0
  {
    if n == 0 then 1 else 256 * Pow256(n - 1)
  }

  /** The number a byte string denotes, most significant byte first. */
  function BigEndian(s: seq<Byte>): (v: nat)
    ensures v < Pow256(|s|)
  {
    if s == [] then 0 else BigEndian(s[..|s| - 1]) * 256 + s[|s| - 1]
  }

  lemma BigEndianOfTwo(a: Byte, b: Byte)
    ensures BigEndian([a, b]) == 256 * a + b
  {
    assert [a, b][..1] == [a] && [a][..0] == [];
  }

  lemma BigEndianOfFour(a: Byte, b: Byte, c: Byte, d: Byte)
    ensures BigEndian([a, b, c, d]) == 0x100_0000 * a + TWO_16 * b + 256 * c + d
  {
    BigEndianOfTwo(a, b);
    assert [a, b, c, d][..3] == [a, b, c] && [a, b, c][..2] == [a, b];
  }

  /** The words read from a buffer are its bytes, the most significant first. */
  lemma WordsAreBigEndian(b: seq<Byte>, at: nat)
    requires at + 2 <= |b|
    ensures GetU16(b, at) == BigEndian(b[at..at + 2])
    ensures at + 4 <= |b| ==> GetU32(b, at) == BigEndian(b[at..at + 4])
  {
    BigEndianOfTwo(b[at], b[at + 1]);
    assert b[at..at + 2] == [b[at], b[at + 1]];
    if at + 4 <= |b| {
      BigEndianOfFour(b[at], b[at + 1], b[at + 2], b[at + 3]);
      assert b[at..at + 4] == [b[at], b[at + 1], b[at + 2], b[at + 3]];
    }
  }

  /** A word is written as the bytes that denote it. */
  lemma U16Denotes(v: nat)
    requires v < TWO_16
    ensures BigEndian(U16(v)) == v
  {
    WordsAreBigEndian(U16(v), 0);
    assert U16(v)[0..2] == U16(v);
  }

  lemma U32Denotes(v: nat)
    requires v < TWO_32
    ensures BigEndian(U32(v)) == v
  {
    WordsAreBigEndian(U32(v), 0);
    assert U32(v)[0..4] == U32(v);
  }

  /** Big-endian numerals of one length are unique. */
  lemma {:induction false} BigEndianInjective(s: seq<Byte>, t: seq<Byte>)
    requires |s| == |t| && BigEndian(s) == BigEndian(t)
    ensures s == t
  {
    if s != [] {
      var n := |s| - 1;
      assert s[n] == t[n] && BigEndian(s[..n]) == BigEndian(t[..n]);
      BigEndianInjective(s[..n], t[..n]);
      assert s == s[..n] + [s[n]] && t == t[..n] + [t[n]];
    }
  }

  function Pow2(n: nat): (p: nat)
    ensures p > 0
  {
    if n == 0 then 1 else 2 * Pow2(n - 1)
  }

  /** Bit `k` of a number, counted from the least significant: `(v >> k) & 1`, or `v & (1 << k)`. */
  predicate TestBit(v: nat, k: nat) {
    if k == 0 then v % 2 == 1 else TestBit(v / 2, k - 1)
  }

  /** `v | (1 << k)`. */
  function SetBit(v: nat, k: nat): (r: nat)
  {
    if k == 0 then v / 2 * 2 + 1 else 2 * SetBit(v / 2, k - 1) + v % 2
  }

  /** Setting a bit sets that bit and no other, and does not outgrow the width. */
  lemma {:induction false} SetBitSetsOne(v: nat, k: nat, i: nat)
    ensures TestBit(SetBit(v, k), i) == (i == k || TestBit(v, i))
  {
    if k > 0 {
      assert SetBit(v, k) / 2 == SetBit(v / 2, k - 1);
      if i > 0 {
        SetBitSetsOne(v / 2, k - 1, i - 1);
      }
    }
  }

  lemma {:induction false} SetBitBounded(v: nat, k: nat, n: nat)
    requires v < Pow2(n) && k < n
    ensures SetBit(v, k) < Pow2(n)
  {
    if k > 0 {
      SetBitBounded(v / 2, k - 1, n - 1);
    }
  }

  lemma ZeroHasNoBits(k: nat)
    ensures !TestBit(0, k)
  {}

  /** Numbers below `2^n` with the same `n` low bits are the same. */
  lemma {:induction false} BitsDetermine(a: nat, b: nat, n: nat)
    requires a < Pow2(n) && b < Pow2(n)
    requires forall k | 0 <= k < n :: TestBit(a, k) == TestBit(b, k)
    ensures a == b
  {
    if n > 0 {
      assert TestBit(a, 0) == TestBit(b, 0);
      forall k | 0 <= k < n - 1 ensures TestBit(a / 2, k) == TestBit(b / 2, k) {
        assert TestBit(a, k + 1) == TestBit(b, k + 1);
      }
      BitsDetermine(a / 2, b / 2, n - 1);
    }
  }

  /** Bitwise exclusive or of two bytes, `a ^ b`. */
  function Xor(a: Byte, b: Byte): (r: Byte) {
    XorBelow(a, b, 8)
  }

  function XorBelow(a: nat, b: nat, n: nat): (r: nat)
    requires a < Pow2(n) && b < Pow2(n)
    ensures r < Pow2(n)
  {
    if n == 0 then 0 else 2 * XorBelow(a / 2, b / 2, n - 1) + (if a % 2 != b % 2 then 1 else 0)
  }

  lemma {:induction false} XorBelowBits(a: nat, b: nat, n: nat, k: nat)
    requires a < Pow2(n) && b < Pow2(n) && k < n
    ensures TestBit(XorBelow(a, b, n), k) == (TestBit(a, k) != TestBit(b, k))
  {
    assert XorBelow(a, b, n) / 2 == XorBelow(a / 2, b / 2, n - 1);
    if k > 0 {
      XorBelowBits(a / 2, b / 2, n - 1, k - 1);
    }
  }

  /** A slice of a slice. */
  lemma Within(buf: seq<Byte>, lo: nat, hi: nat, i: nat, j: nat)
    requires lo <= hi <= |buf| && i <= j <= hi - lo
    ensures buf[lo..hi][i..j] == buf[lo + i..lo + j]
  {
    forall k | 0 <= k < j - i ensures buf[lo..hi][i..j][k] == buf[lo + i..lo + j][k] {
    }
  }

  // ---- Writing into a buffer ----

  /** `buf.writeUInt16BE(v, at)`. */
  method PutU16(buf: array<Byte>, v: nat, at: nat)
    requires v < TWO_16 && at + 2 <= buf.Length
    modifies buf
    ensures buf[..at + 2] == old(buf[..at]) + U16(v)
    ensures forall i | at + 2 <= i < buf.Length :: buf[i] == old(buf[i])
  {
    buf[at], buf[at + 1] := v / 256, v % 256;
  }

  /** `buf.writeUInt32BE(v, at)`. */
  method PutU32(buf: array<Byte>, v: nat, at: nat)
    requires v < TWO_32 && at + 4 <= buf.Length
    modifies buf
    ensures buf[..at + 4] == old(buf[..at]) + U32(v)
    ensures forall i | at + 4 <= i < buf.Length :: buf[i] == old(buf[i])
  {
    buf[at], buf[at + 1], buf[at + 2], buf[at + 3] := v / 0x100_0000, v / TWO_16 % 256, v / 256 % 256, v % 256;
  }

  /** `data.copy(buf, at)` where the data fit. */
  method PutBytes(buf: array<Byte>, data: seq<Byte>, at: nat)
    requires at + |data| <= buf.Length
    modifies buf
    ensures buf[..at + |data|] == old(buf[..at]) + data
    ensures forall i | at + |data| <= i < buf.Length :: buf[i] == old(buf[i])
  {
    forall i | 0 <= i < |data| {
      buf[at + i] := data[i];
    }
  }

  function Zeros(n: nat): (z: seq<Byte>)
  {
    seq(n, _ => 0)
  }

  /** The bytes cut to a length, or filled up with zeros. */
  function FitTo(data: seq<Byte>, len: nat): (r: seq<Byte>)
    ensures |r| == len
  {
    if |data| >= len then data[..len] else data + Zeros(len - |data|)
  }
}
