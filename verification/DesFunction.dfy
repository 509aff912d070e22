/**
 The cipher function position by position, with the positions and the values that FIPS PUB 46-3 prints:
 which bits reach which box, what the box holds, and where its four bits go.
 */
module DesFunction {
  import opened Bytes
  import opened DesSpec

  type SixPositions = p: seq<nat> | |p| == 6 witness [1, 2, 3, 4, 5, 6]
  type FourPositions = p: seq<nat> | |p| == 4 witness [1, 2, 3, 4]

  /** The positions of the right half that each box reads, counted from 1. */
  const INPUTS: seq<SixPositions> :=
    [[32,  1,  2,  3,  4,  5], [ 4,  5,  6,  7,  8,  9], [ 8,  9, 10, 11, 12, 13], [12, 13, 14, 15, 16, 17]] +
    [[16, 17, 18, 19, 20, 21], [20, 21, 22, 23, 24, 25], [24, 25, 26, 27, 28, 29], [28, 29, 30, 31, 32,  1]]

  /** The positions of the result that each box drives, counted from 1. */
  const OUTPUTS: seq<FourPositions> :=
    [[ 9, 17, 23, 31], [13, 28,  2, 18], [24, 16, 30,  6], [26, 20, 10,  1]] +
    [[ 8, 14, 25,  3], [ 4, 29, 11, 19], [32, 12, 22,  7], [ 5, 27, 15, 21]]

  type Binary = v: nat | v <= 1

  function Number(b: bool): (v: Binary) {
    if b then 1 else 0
  }

  /** The bit at a position counted from 1. */
  function Bit(s: Bits, p: nat): (b: bool) {
    1 <= p <= |s| && s[p - 1]
  }

  /** The number at four positions, the highest bit first. */
  function Four(s: Bits, p: FourPositions): (v: nat)
    ensures v < 16
  {
    8 * Number(Bit(s, p[0])) + 4 * Number(Bit(s, p[1])) + 2 * Number(Bit(s, p[2])) + Number(Bit(s, p[3]))
  }

  /** What a box holds in row `2a + f` and column `8b + 4c + 2d + e`. */
  function Entry(box: nat, a: Binary, b: Binary, c: Binary, d: Binary, e: Binary, f: Binary): (v: nat)
    requires box < 8
    ensures v < 16
  {
    SBoxEntry(box, 16 * (2 * a + f) + (8 * b + 4 * c + 2 * d + e))
  }

  // ---- What the boxes hold ----

  function FourEntries(t: seq<nat>, o: nat): (v: nat)
    requires o + 4 <= |t|
  {
    0x1000 * t[o] + 0x100 * t[o + 1] + 0x10 * t[o + 2] + t[o + 3]
  }

  /** A row of a box as one number of sixteen hexadecimal digits, an entry each. */
  function Row(t: SBox, row: nat): (v: nat)
    requires row < 4
  {
    var e: seq<nat>, o := t, 16 * row;
    0x1_0000_0000_0000 * FourEntries(e, o) + 0x1_0000_0000 * FourEntries(e, o + 4) + 0x1_0000 * FourEntries(e, o + 8) + FourEntries(e, o + 12)
  }

  lemma FirstBox()
    ensures SBOXES[0] == S1
    ensures Row(S1, 0) == 0xE4D12FB83A6C5907 && Row(S1, 1) == 0x0F74E2D1A6CB9538
    ensures Row(S1, 2) == 0x41E8D62BFC973A50 && Row(S1, 3) == 0xFC8249175B3EA06D
  {}

  lemma SecondBox()
    ensures SBOXES[1] == S2
    ensures Row(S2, 0) == 0xF18E6B34972DC05A && Row(S2, 1) == 0x3D47F28EC01A69B5
    ensures Row(S2, 2) == 0x0E7BA4D158C6932F && Row(S2, 3) == 0xD8A13F42B67C05E9
  {}

  lemma ThirdBox()
    ensures SBOXES[2] == S3
    ensures Row(S3, 0) == 0xA09E63F51DC7B428 && Row(S3, 1) == 0xD709346A285ECBF1
    ensures Row(S3, 2) == 0xD6498F30B12C5AE7 && Row(S3, 3) == 0x1AD069874FE3B52C
  {}

  lemma FourthBox()
    ensures SBOXES[3] == S4
    ensures Row(S4, 0) == 0x7DE3069A1285BC4F && Row(S4, 1) == 0xD8B56F03472C1AE9
    ensures Row(S4, 2) == 0xA690CB7DF13E5284 && Row(S4, 3) == 0x3F06A1D8945BC72E
  {}

  lemma FifthBox()
    ensures SBOXES[4] == S5
    ensures Row(S5, 0) == 0x2C417AB6853FD0E9 && Row(S5, 1) == 0xEB2C47D150FA3986
    ensures Row(S5, 2) == 0x421BAD78F9C5630E && Row(S5, 3) == 0xB8C71E2D6F09A453
  {}

  lemma SixthBox()
    ensures SBOXES[5] == S6
    ensures Row(S6, 0) == 0xC1AF92680D34E75B && Row(S6, 1) == 0xAF427C9561DE0B38
    ensures Row(S6, 2) == 0x9EF528C3704A1DB6 && Row(S6, 3) == 0x432C95FABE17608D
  {}

  lemma SeventhBox()
    ensures SBOXES[6] == S7
    ensures Row(S7, 0) == 0x4B2EF08D3C975A61 && Row(S7, 1) == 0xD0B7491AE35C2F86
    ensures Row(S7, 2) == 0x14BDC37EAF680592 && Row(S7, 3) == 0x6BD814A7950FE23C
  {}

  lemma EighthBox()
    ensures SBOXES[7] == S8
    ensures Row(S8, 0) == 0xD2846FB1A93E50C7 && Row(S8, 1) == 0x1FD8A374C56B0E92
    ensures Row(S8, 2) == 0x7B419CE206ADF358 && Row(S8, 3) == 0x21E74A8DFC90356B
  {}

  // ---- Where bits come from and go to ----

  lemma InputTable(box: nat, i: nat)
    requires box < 8 && i < 6
    ensures 1 <= INPUTS[box][i] <= 32
    ensures EPERM[6 * box + i] == INPUTS[box][i]
  {}

  lemma OutputTable(box: nat, j: nat)
    requires box < 8 && j < 4
    ensures 1 <= OUTPUTS[box][j] <= 32
    ensures PPERM[OUTPUTS[box][j] - 1] == 4 * box + j + 1
  {}

  /** Every position of the result is driven by some box. */
  lemma EveryPosition(p: nat) returns (box: nat, j: nat)
    requires 1 <= p <= 32
    ensures box < 8 && j < 4 && OUTPUTS[box][j] == p
  {
    box, j := (PPERM[p - 1] - 1) / 4, (PPERM[p - 1] - 1) % 4;
  }

  /** The bit a box reads as its `i`-th, counted from 0: one of the right half, mixed with one of the round key. */
  function Mixed(r: Bits, k: Bits, box: nat, i: nat): (v: Binary)
    requires box < 8 && i < 6
  {
    InputTable(box, i);
    Number(Bit(r, INPUTS[box][i]) != Bit(k, 6 * box + i + 1))
  }

  lemma MixedIsRead(r: Bits, k: Bits, box: nat, i: nat)
    requires |r| == 32 && |k| == 48 && box < 8 && i < 6
    ensures BitAt(XorBits(Select(EPERM, r), k), 6 * box + i) == Mixed(r, k, box, i)
  {
    InputTable(box, i);
    hide EPERM, INPUTS;
  }

  /** What a box makes of a right half and a round key. */
  function BoxValue(r: Bits, k: Bits, box: nat): (v: nat)
    requires box < 8
    ensures v < 16
  {
    Entry(box, Mixed(r, k, box, 0), Mixed(r, k, box, 1), Mixed(r, k, box, 2), Mixed(r, k, box, 3), Mixed(r, k, box, 4), Mixed(r, k, box, 5))
  }

  lemma EntryIsValue(x: Bits, r: Bits, k: Bits, box: nat)
    requires |r| == 32 && |k| == 48 && box < 8 && x == XorBits(Select(EPERM, r), k)
    ensures SBoxEntry(box, SBoxInput(x, box)) == BoxValue(r, k, box)
  {
    hide XorBits, Select, SBoxEntry, Mixed, BitAt;
    forall i | 0 <= i < 6 ensures BitAt(x, 6 * box + i) == Mixed(r, k, box, i) {
      MixedIsRead(r, k, box, i);
    }
  }

  lemma SubstitutedBit(x: Bits, box: nat, j: nat)
    requires box < 8 && j < 4
    ensures |Substitute(x)| == 32
    ensures Substitute(x)[4 * box + j] == TestBit(SBoxEntry(box, SBoxInput(x, box)), 3 - j)
  {
    hide SBoxEntry, SBoxInput, TestBit;
    assert (4 * box + j) / 4 == box && (4 * box + j) % 4 == j;
  }

  lemma PermutedBit(s: Bits, box: nat, j: nat)
    requires |s| == 32 && box < 8 && j < 4
    ensures Bit(Select(PPERM, s), OUTPUTS[box][j]) == s[4 * box + j]
  {
    OutputTable(box, j);
    hide OUTPUTS, PPERM;
  }

  lemma BoxBit(r: Bits, k: Bits, box: nat, j: nat)
    requires |r| == 32 && |k| == 48 && box < 8 && j < 4
    ensures Bit(CipherFunction(r, k), OUTPUTS[box][j]) == TestBit(BoxValue(r, k, box), 3 - j)
  {
    var x := XorBits(Select(EPERM, r), k);
    assert |x| == 48;
    hide XorBits, Select, BoxValue, TestBit, OUTPUTS, PPERM, Bit, SBoxEntry, SBoxInput, Substitute;
    SubstitutedBit(x, box, j);
    PermutedBit(Substitute(x), box, j);
    EntryIsValue(x, r, k, box);
  }

  lemma NibbleBits(v: nat)
    requires v < 16
    ensures v == 8 * Number(TestBit(v, 3)) + 4 * Number(TestBit(v, 2)) + 2 * Number(TestBit(v, 1)) + Number(TestBit(v, 0))
  {
    assert TestBit(v, 3) == TestBit(v / 2, 2) == TestBit(v / 2 / 2, 1) == TestBit(v / 2 / 2 / 2, 0);
    assert TestBit(v, 2) == TestBit(v / 2, 1) == TestBit(v / 2 / 2, 0);
    assert TestBit(v, 1) == TestBit(v / 2, 0);
  }

  /** At the four positions that a box drives, the cipher function has that box's entry for its six inputs. */
  lemma CipherFunctionIs(r: Bits, k: Bits, box: nat)
    requires |r| == 32 && |k| == 48 && box < 8
    ensures |CipherFunction(r, k)| == 32
    ensures Four(CipherFunction(r, k), OUTPUTS[box]) == BoxValue(r, k, box)
  {
    LengthsOf(r, k);
    hide TestBit, BoxValue, OUTPUTS, CipherFunction, Bit, Substitute;
    BoxBit(r, k, box, 0);
    BoxBit(r, k, box, 1);
    BoxBit(r, k, box, 2);
    BoxBit(r, k, box, 3);
    NibbleBits(BoxValue(r, k, box));
  }

  lemma LengthsOf(r: Bits, k: Bits)
    ensures |CipherFunction(r, k)| == 32
  {}

  /** Round keys that agree outside the six bits of one box give results that agree outside the four positions it drives. */
  lemma KeyBitsReach(r: Bits, k: Bits, k': Bits, box: nat, p: nat)
    requires |r| == 32 && |k| == |k'| == 48 && box < 8 && 1 <= p <= 32
    requires forall i | 0 <= i < 48 && i / 6 != box :: k[i] == k'[i]
    requires p !in OUTPUTS[box]
    ensures Bit(CipherFunction(r, k), p) == Bit(CipherFunction(r, k'), p)
  {
    var other, j := EveryPosition(p);
    BoxBit(r, k, other, j);
    BoxBit(r, k', other, j);
    SameOutside(r, k, k', box, other);
  }

  lemma SameOutside(r: Bits, k: Bits, k': Bits, box: nat, other: nat)
    requires |r| == 32 && |k| == |k'| == 48 && box < 8 && other < 8 && other != box
    requires forall i | 0 <= i < 48 && i / 6 != box :: k[i] == k'[i]
    ensures BoxValue(r, k, other) == BoxValue(r, k', other)
  {
    hide Entry, INPUTS;
    forall i | 0 <= i < 6 ensures Mixed(r, k, other, i) == Mixed(r, k', other, i) {
      assert (6 * other + i) / 6 == other;
    }
  }
}
