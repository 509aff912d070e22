/** The trailing declets of a decimal floating-point field, packed and unpacked bit by bit. */
module DecFloatBits {
  import opened Bytes
  import opened Digits
  import opened DecFloatTables

  // ---- Bits of a buffer ----

  /** Bit `pos` of the field at `offset`, the highest bit of its first byte being bit 0. */
  predicate BitFrom(buf: seq<Byte>, offset: nat, pos: nat)
    decreases pos
  {
    if pos < 8 then TestBit(At(buf, offset), 7 - pos) else BitFrom(buf, offset + 1, pos - 8)
  }

  /** `(buf[offset + byteIdx] >> bitIdx) & 1` with the indices the source computes. */
  lemma {:induction false} BitFromIs(buf: seq<Byte>, offset: nat, pos: nat)
    ensures BitFrom(buf, offset, pos) == TestBit(At(buf, offset + pos / 8), 7 - pos % 8)
    decreases pos
  {
    if pos >= 8 {
      BitFromIs(buf, offset + 1, pos - 8);
      OneByteOn(pos);
    }
  }

  lemma OneByteOn(pos: nat)
    requires pos >= 8
    ensures pos / 8 == 1 + (pos - 8) / 8 && pos % 8 == (pos - 8) % 8
  {}

  /** `bits` or-ed into `was` from bit `start` on; what would lie past the end is dropped. */
  ghost predicate Written(was: seq<Byte>, now: seq<Byte>, start: nat, bits: seq<bool>) {
    |now| == |was| &&
    forall pos: nat | pos < 8 * |was| ::
      BitFrom(now, 0, pos) == (BitFrom(was, 0, pos) || (start <= pos < start + |bits| && bits[pos - start]))
  }

  lemma WrittenJoins(a: seq<Byte>, b: seq<Byte>, c: seq<Byte>, start: nat, x: seq<bool>, y: seq<bool>)
    requires Written(a, b, start, x) && Written(b, c, start + |x|, y)
    ensures Written(a, c, start, x + y)
  {
    hide BitFrom;
    forall pos: nat | pos < 8 * |a|
      ensures BitFrom(c, 0, pos) == (BitFrom(a, 0, pos) || (start <= pos < start + |x + y| && (x + y)[pos - start]))
    {
      if start <= pos < start + |x| {
        assert (x + y)[pos - start] == x[pos - start];
      } else if start + |x| <= pos < start + |x + y| {
        assert (x + y)[pos - start] == y[pos - start - |x|];
      }
    }
  }

  lemma WrittenNothing(a: seq<Byte>, start: nat)
    ensures Written(a, a, start, [])
  {}

  /** `buf[byteIdx] |= bit << bitIdx`, ignored past the end of the buffer. */
  method OrBit(buf: array<Byte>, bitPos: nat, bit: bool)
    modifies buf
    ensures Written(old(buf[..]), buf[..], bitPos, [bit])
  {
    var byteIdx := bitPos / 8;
    var bitIdx := 7 - bitPos % 8;
    ghost var was := buf[..];
    if byteIdx < buf.Length && bit {
      SetBitBounded(buf[byteIdx], bitIdx, 8);
      Pow2Eight();
      buf[byteIdx] := SetBit(buf[byteIdx], bitIdx);
    }
    OneBitWritten(was, buf[..], bitPos, bit);
  }

  lemma Pow2Eight()
    ensures Pow2(8) == 256
  {
    assert Pow2(4) == 16;
    assert Pow2(6) == 64;
  }

  lemma OneBitWritten(was: seq<Byte>, now: seq<Byte>, bitPos: nat, bit: bool)
    requires |now| == |was|
    requires forall i: nat | i < |was| :: now[i] == if bit && i == bitPos / 8 then SetBit(was[i], 7 - bitPos % 8) else was[i]
    ensures Written(was, now, bitPos, [bit])
  {
    forall pos: nat | pos < 8 * |was|
      ensures BitFrom(now, 0, pos) == (BitFrom(was, 0, pos) || (bitPos <= pos < bitPos + 1 && [bit][pos - bitPos]))
    {
      SamePosition(pos, bitPos);
      BitFromIs(now, 0, pos);
      BitFromIs(was, 0, pos);
      SetBitSetsOne(was[pos / 8], 7 - bitPos % 8, 7 - pos % 8);
    }
  }

  lemma SamePosition(a: nat, b: nat)
    ensures a == b <==> a / 8 == b / 8 && 7 - a % 8 == 7 - b % 8
    ensures 0 <= 7 - a % 8 < 8
  {}

  // ---- Declets ----

  /** Bit `j` of a declet, counted from the highest. */
  predicate DecletBit(c: nat, j: nat)
    requires j < 10
  {
    TestBit(c, 9 - j)
  }

  /** The ten bits of a declet, highest first. */
  function DecletBits(c: nat): (bits: seq<bool>)
    ensures |bits| == 10
  {
    seq(10, i requires 0 <= i < 10 => DecletBit(c, i))
  }

  /** The number bits stand for, highest first. */
  function BitsNumber(bits: seq<bool>): (v: nat)
    ensures v < Pow2(|bits|)
  {
    if bits == [] then 0 else 2 * BitsNumber(bits[..|bits| - 1]) + if bits[|bits| - 1] then 1 else 0
  }

  lemma {:induction false} BitsNumberBit(bits: seq<bool>, k: nat)
    requires k < |bits|
    ensures TestBit(BitsNumber(bits), k) == bits[|bits| - 1 - k]
  {
    var front := bits[..|bits| - 1];
    assert BitsNumber(bits) / 2 == BitsNumber(front);
    if k > 0 {
      BitsNumberBit(front, k - 1);
    }
  }

  lemma Pow2Ten()
    ensures Pow2(10) == 1024
  {
    Pow2Eight();
  }

  lemma DecletNumber(c: nat)
    requires c < 1024
    ensures BitsNumber(DecletBits(c)) == c
  {
    var bits := DecletBits(c);
    NumberOfBits(bits, c);
  }

  lemma BitsNumberInjective(a: seq<bool>, b: seq<bool>)
    requires |a| == |b| && BitsNumber(a) == BitsNumber(b)
    ensures a == b
  {
    forall i | 0 <= i < |a| ensures a[i] == b[i] {
      BitsNumberBit(a, |a| - 1 - i);
      BitsNumberBit(b, |a| - 1 - i);
    }
  }

  // ---- Packing ----

  /** `parseInt(digits[i], 10) || 0`. */
  function DigitAt(digits: string, i: nat): (d: nat)
    ensures d < 10
  {
    if i < |digits| then DigitOf(digits[i]) else 0
  }

  /** The declet of the `g`-th triple behind the leading digit. */
  function GroupCode(digits: string, g: nat): (c: nat)
    ensures c < 1024
  {
    EncodeTriple(DigitAt(digits, 1 + 3 * g), DigitAt(digits, 2 + 3 * g), DigitAt(digits, 3 + 3 * g))
  }

  lemma GroupCodeIs(digits: string, g: nat)
    ensures GroupCode(digits, g) == EncodeTriple(DigitAt(digits, 1 + 3 * g), DigitAt(digits, 1 + 3 * g + 1), DigitAt(digits, 1 + 3 * g + 2))
  {}

  function TrailingBits(digits: string, groups: nat): (bits: seq<bool>)
    ensures |bits| == 10 * groups
  {
    if groups == 0 then [] else TrailingBits(digits, groups - 1) + DecletBits(GroupCode(digits, groups - 1))
  }

  method PackDeclet(buf: array<Byte>, bitPos: nat, dpd: nat)
    modifies buf
    ensures Written(old(buf[..]), buf[..], bitPos, DecletBits(dpd))
  {
    ghost var was, bits := buf[..], DecletBits(dpd);
    WrittenNothing(was, bitPos);
    assert bits[..0] == [];
    for i := 0 to 10
      invariant Written(was, buf[..], bitPos, bits[..i])
    {
      ghost var before := buf[..];
      OrBit(buf, bitPos + i, TestBit(dpd, 9 - i));
      WrittenJoins(was, before, buf[..], bitPos, bits[..i], [bits[i]]);
      assert bits[..i] + [bits[i]] == bits[..i + 1];
    }
    assert bits[..10] == bits;
  }

  /** The declets of the digits behind the first, one behind the other from a bit position on. */
  method PackTrailing(digits: string, numGroups: nat, buf: array<Byte>, bitOffset: nat)
    modifies buf
    ensures Written(old(buf[..]), buf[..], bitOffset, TrailingBits(digits, numGroups))
  {
    hide Written, GroupCode, DecletBits;
    var bitPos := bitOffset;
    ghost var was := buf[..];
    WrittenNothing(was, bitOffset);
    for g := 0 to numGroups
      invariant bitPos == bitOffset + 10 * g
      invariant Written(was, buf[..], bitOffset, TrailingBits(digits, g))
    {
      ghost var before := buf[..];
      var dpd := EncodeTriple(DigitAt(digits, 1 + 3 * g), DigitAt(digits, 1 + 3 * g + 1), DigitAt(digits, 1 + 3 * g + 2));
      GroupCodeIs(digits, g);
      PackDeclet(buf, bitPos, dpd);
      WrittenJoins(was, before, buf[..], bitOffset, TrailingBits(digits, g), DecletBits(GroupCode(digits, g)));
      bitPos := bitPos + 10;
    }
  }

  // ---- Unpacking ----

  function BitsFrom(buf: seq<Byte>, offset: nat, start: nat, n: nat): (bits: seq<bool>)
  {
    seq(n, i requires 0 <= i < n => BitFrom(buf, offset, start + i))
  }

  function CodeAt(buf: seq<Byte>, offset: nat, start: nat): (c: nat) {
    BitsNumber(BitsFrom(buf, offset, start, 10))
  }

  method ReadDeclet(buf: seq<Byte>, offset: nat, bitPos: nat) returns (dpd: nat)
    ensures dpd == CodeAt(buf, offset, bitPos)
  {
    hide DecletBit;
    ghost var bits := BitsFrom(buf, offset, bitPos, 10);
    Pow2Ten();
    dpd := 0;
    NoDecletBits();
    for i := 0 to 10
      invariant dpd < 1024
      invariant forall j | 0 <= j < 10 :: DecletBit(dpd, j) == (j < i && bits[j])
    {
      ghost var before := dpd;
      var byteIdx := (bitPos + i) / 8;
      var bitIdx := 7 - (bitPos + i) % 8;
      BitFromIs(buf, offset, bitPos + i);
      if TestBit(At(buf, offset + byteIdx), bitIdx) {
        SetDecletBit(dpd, i);
        dpd := SetBit(dpd, 9 - i);
      }
      assert forall j | 0 <= j < 10 :: DecletBit(dpd, j) == (DecletBit(before, j) || (j == i && bits[j]));
    }
    NumberOfBits(bits, dpd);
  }

  lemma NoDecletBits()
    ensures forall j | 0 <= j < 10 :: !DecletBit(0, j)
  {
    forall j | 0 <= j < 10 ensures !DecletBit(0, j) {
      ZeroHasNoBits(9 - j);
    }
  }

  lemma SetDecletBit(v: nat, i: nat)
    requires v < 1024 && i < 10
    ensures SetBit(v, 9 - i) < 1024
    ensures forall j | 0 <= j < 10 :: DecletBit(SetBit(v, 9 - i), j) == (j == i || DecletBit(v, j))
  {
    Pow2Ten();
    SetBitBounded(v, 9 - i, 10);
    var r := SetBit(v, 9 - i);
    forall j | 0 <= j < 10 ensures DecletBit(r, j) == (j == i || DecletBit(v, j)) {
      SetDecletBitAt(v, i, j, r);
    }
  }

  lemma SetDecletBitAt(v: nat, i: nat, j: nat, r: nat)
    requires i < 10 && j < 10 && r == SetBit(v, 9 - i)
    ensures DecletBit(r, j) == (j == i || DecletBit(v, j))
  {
    SetBitSetsOne(v, 9 - i, 9 - j);
  }

  lemma NumberOfBits(bits: seq<bool>, v: nat)
    requires |bits| == 10 && v < 1024 && forall j | 0 <= j < 10 :: DecletBit(v, j) == bits[j]
    ensures v == BitsNumber(bits)
  {
    Pow2Ten();
    forall k | 0 <= k < 10 ensures TestBit(BitsNumber(bits), k) == TestBit(v, k) {
      BitsNumberBit(bits, k);
      assert DecletBit(v, 9 - k) == bits[9 - k];
    }
    BitsDetermine(BitsNumber(bits), v, 10);
  }

  /** The digits of the declets from a bit position on. */
  function Trailing(buf: seq<Byte>, offset: nat, start: nat, groups: nat): (s: string) {
    if groups == 0 then [] else
      Trailing(buf, offset, start, groups - 1) + PadStart(NatText(Decode(CodeAt(buf, offset, start + 10 * (groups - 1)))), 3)
  }

  method UnpackTrailing(buf: seq<Byte>, offset: nat, bitOffset: nat, numGroups: nat) returns (result: string)
    ensures result == Trailing(buf, offset, bitOffset, numGroups)
  {
    hide CodeAt, Decode, NatText, PadStart;
    result := "";
    var bitPos := bitOffset;
    for g := 0 to numGroups
      invariant bitPos == bitOffset + 10 * g
      invariant result == Trailing(buf, offset, bitOffset, g)
    {
      var dpd := ReadDeclet(buf, offset, bitPos);
      result := result + PadStart(NatText(Decode(dpd)), 3);
      bitPos := bitPos + 10;
    }
  }
}
