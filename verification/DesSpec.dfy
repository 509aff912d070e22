/**
 The data encryption standard as FIPS PUB 46-3 defines it, on sequences of bits.
 The tables are those of src/auth/password-encrypt.js; entries count from 1.
 */
module DesSpec {
  import opened Bytes

  type Bits = seq<bool>

  /** A table of `size` entries, each naming one of `width` positions, counted from 1. */
  ghost predicate Table(t: seq<nat>, size: nat, width: nat) {
    |t| == size && forall i | 0 <= i < size :: 1 <= t[i] <= width
  }

  type Table48From32 = t: seq<nat> | Table(t, 48, 32) witness seq(48, _ => 1)
  type Table32From32 = t: seq<nat> | Table(t, 32, 32) witness seq(32, _ => 1)
  type Table64From64 = t: seq<nat> | Table(t, 64, 64) witness seq(64, _ => 1)
  type Table56From64 = t: seq<nat> | Table(t, 56, 64) witness seq(56, _ => 1)
  type Table48From56 = t: seq<nat> | Table(t, 48, 56) witness seq(48, _ => 1)

  const EPERM: Table48From32 :=
    [32,  1,  2,  3,  4,  5,  4,  5,  6,  7,  8,  9] +
    [ 8,  9, 10, 11, 12, 13, 12, 13, 14, 15, 16, 17] +
    [16, 17, 18, 19, 20, 21, 20, 21, 22, 23, 24, 25] +
    [24, 25, 26, 27, 28, 29, 28, 29, 30, 31, 32,  1]

  const INITPERM: Table64From64 :=
    [58, 50, 42, 34, 26, 18, 10,  2, 60, 52, 44, 36, 28, 20, 12,  4] +
    [62, 54, 46, 38, 30, 22, 14,  6, 64, 56, 48, 40, 32, 24, 16,  8] +
    [57, 49, 41, 33, 25, 17,  9,  1, 59, 51, 43, 35, 27, 19, 11,  3] +
    [61, 53, 45, 37, 29, 21, 13,  5, 63, 55, 47, 39, 31, 23, 15,  7]

  const OUTPERM: Table64From64 :=
    [40,  8, 48, 16, 56, 24, 64, 32, 39,  7, 47, 15, 55, 23, 63, 31] +
    [38,  6, 46, 14, 54, 22, 62, 30, 37,  5, 45, 13, 53, 21, 61, 29] +
    [36,  4, 44, 12, 52, 20, 60, 28, 35,  3, 43, 11, 51, 19, 59, 27] +
    [34,  2, 42, 10, 50, 18, 58, 26, 33,  1, 41,  9, 49, 17, 57, 25]

  const PPERM: Table32From32 :=
    [16,  7, 20, 21, 29, 12, 28, 17,  1, 15, 23, 26,  5, 18, 31, 10] +
    [ 2,  8, 24, 14, 32, 27,  3,  9, 19, 13, 30,  6, 22, 11,  4, 25]

  const PC1: Table56From64 :=
    [57, 49, 41, 33, 25, 17,  9,  1, 58, 50, 42, 34, 26, 18] +
    [10,  2, 59, 51, 43, 35, 27, 19, 11,  3, 60, 52, 44, 36] +
    [63, 55, 47, 39, 31, 23, 15,  7, 62, 54, 46, 38, 30, 22] +
    [14,  6, 61, 53, 45, 37, 29, 21, 13,  5, 28, 20, 12,  4]

  const PC2: Table48From56 :=
    [14, 17, 11, 24,  1,  5,  3, 28, 15,  6, 21, 10] +
    [23, 19, 12,  4, 26,  8, 16,  7, 27, 20, 13,  2] +
    [41, 52, 31, 37, 47, 55, 30, 40, 51, 45, 33, 48] +
    [44, 49, 39, 56, 34, 53, 46, 42, 50, 36, 29, 32]

  /** An S-box: four rows of sixteen four-bit entries. */
  type SBox = t: seq<nat> | |t| == 64 && forall i | 0 <= i < 64 :: t[i] < 16
    witness seq(64, _ => 0)

  const S1: SBox :=
    [14,  4, 13,  1,  2, 15, 11,  8,  3, 10,  6, 12,  5,  9,  0,  7] +
    [ 0, 15,  7,  4, 14,  2, 13,  1, 10,  6, 12, 11,  9,  5,  3,  8] +
    [ 4,  1, 14,  8, 13,  6,  2, 11, 15, 12,  9,  7,  3, 10,  5,  0] +
    [15, 12,  8,  2,  4,  9,  1,  7,  5, 11,  3, 14, 10,  0,  6, 13]

  const S2: SBox :=
    [15,  1,  8, 14,  6, 11,  3,  4,  9,  7,  2, 13, 12,  0,  5, 10] +
    [ 3, 13,  4,  7, 15,  2,  8, 14, 12,  0,  1, 10,  6,  9, 11,  5] +
    [ 0, 14,  7, 11, 10,  4, 13,  1,  5,  8, 12,  6,  9,  3,  2, 15] +
    [13,  8, 10,  1,  3, 15,  4,  2, 11,  6,  7, 12,  0,  5, 14,  9]

  const S3: SBox :=
    [10,  0,  9, 14,  6,  3, 15,  5,  1, 13, 12,  7, 11,  4,  2,  8] +
    [13,  7,  0,  9,  3,  4,  6, 10,  2,  8,  5, 14, 12, 11, 15,  1] +
    [13,  6,  4,  9,  8, 15,  3,  0, 11,  1,  2, 12,  5, 10, 14,  7] +
    [ 1, 10, 13,  0,  6,  9,  8,  7,  4, 15, 14,  3, 11,  5,  2, 12]

  const S4: SBox :=
    [ 7, 13, 14,  3,  0,  6,  9, 10,  1,  2,  8,  5, 11, 12,  4, 15] +
    [13,  8, 11,  5,  6, 15,  0,  3,  4,  7,  2, 12,  1, 10, 14,  9] +
    [10,  6,  9,  0, 12, 11,  7, 13, 15,  1,  3, 14,  5,  2,  8,  4] +
    [ 3, 15,  0,  6, 10,  1, 13,  8,  9,  4,  5, 11, 12,  7,  2, 14]

  const S5: SBox :=
    [ 2, 12,  4,  1,  7, 10, 11,  6,  8,  5,  3, 15, 13,  0, 14,  9] +
    [14, 11,  2, 12,  4,  7, 13,  1,  5,  0, 15, 10,  3,  9,  8,  6] +
    [ 4,  2,  1, 11, 10, 13,  7,  8, 15,  9, 12,  5,  6,  3,  0, 14] +
    [11,  8, 12,  7,  1, 14,  2, 13,  6, 15,  0,  9, 10,  4,  5,  3]

  const S6: SBox :=
    [12,  1, 10, 15,  9,  2,  6,  8,  0, 13,  3,  4, 14,  7,  5, 11] +
    [10, 15,  4,  2,  7, 12,  9,  5,  6,  1, 13, 14,  0, 11,  3,  8] +
    [ 9, 14, 15,  5,  2,  8, 12,  3,  7,  0,  4, 10,  1, 13, 11,  6] +
    [ 4,  3,  2, 12,  9,  5, 15, 10, 11, 14,  1,  7,  6,  0,  8, 13]

  const S7: SBox :=
    [ 4, 11,  2, 14, 15,  0,  8, 13,  3, 12,  9,  7,  5, 10,  6,  1] +
    [13,  0, 11,  7,  4,  9,  1, 10, 14,  3,  5, 12,  2, 15,  8,  6] +
    [ 1,  4, 11, 13, 12,  3,  7, 14, 10, 15,  6,  8,  0,  5,  9,  2] +
    [ 6, 11, 13,  8,  1,  4, 10,  7,  9,  5,  0, 15, 14,  2,  3, 12]

  const S8: SBox :=
    [13,  2,  8,  4,  6, 15, 11,  1, 10,  9,  3, 14,  5,  0, 12,  7] +
    [ 1, 15, 13,  8, 10,  3,  7,  4, 12,  5,  6, 11,  0, 14,  9,  2] +
    [ 7, 11,  4,  1,  9, 12, 14,  2,  0,  6, 10, 13, 15,  3,  5,  8] +
    [ 2,  1, 14,  7,  4, 10,  8, 13, 15, 12,  9,  0,  3,  5,  6, 11]

  const SBOXES: seq<SBox> := [S1, S2, S3, S4, S5, S6, S7, S8]

  /** How far the key halves rotate before each round. */
  const KEY_SHIFTS: seq<nat> := [1, 1, 2, 2, 2, 2, 2, 2, 1, 2, 2, 2, 2, 2, 2, 1]

  /** The bits of `s` that a table names, in table order. */
  function Select(t: seq<nat>, s: Bits): (r: Bits)
  {
    seq(|t|, i requires 0 <= i < |t| => if 1 <= t[i] <= |s| then s[t[i] - 1] else false)
  }

  function XorBits(a: Bits, b: Bits): (r: Bits)
  {
    seq(|a|, i requires 0 <= i < |a| => a[i] != (i < |b| && b[i]))
  }

  function Not(a: Bits): (r: Bits)
  {
    seq(|a|, i requires 0 <= i < |a| => !a[i])
  }

  function RotateLeft<T>(s: seq<T>, k: nat): (r: seq<T>)
    requires k <= |s|
    ensures |r| == |s|
  {
    s[k..] + s[..k]
  }

  /** The two 28-bit halves of a key register, each rotated left by `k`. */
  function RotateHalves<T>(cd: seq<T>, k: nat): (r: seq<T>)
    requires |cd| == 56 && k <= 28
    ensures |r| == 56
  {
    RotateLeft(cd[..28], k) + RotateLeft(cd[28..], k)
  }

  /** How far the halves have rotated after the first `r` rounds. */
  function TotalShift(r: nat): (k: nat) {
    if r == 0 || r > |KEY_SHIFTS| then 0 else TotalShift(r - 1) + KEY_SHIFTS[r - 1]
  }

  /** A half never rotates further than its length, and sixteen rounds bring it back. */
  lemma TotalShiftBounded(r: nat)
    ensures |KEY_SHIFTS| == 16
    ensures TotalShift(r) <= 28
    ensures TotalShift(16) == 28
  {
    assert TotalShift(4) == 6;
    assert TotalShift(8) == 14;
    assert TotalShift(12) == 21;
    assert TotalShift(16) == 28;
  }

  /** The subkey of round `r`, counted from 0 (FIPS PUB 46-3, "Key Schedule KS"). */
  function Subkey(key: Bits, r: nat): (k: Bits)
  {
    TotalShiftBounded(r + 1);
    Select(PC2, RotateHalves(Select(PC1, key), TotalShift(r + 1)))
  }

  function Subkeys(key: Bits): (ks: seq<Bits>)
  {
    seq(16, r requires 0 <= r < 16 => Subkey(key, r))
  }

  function BitAt(s: Bits, i: nat): (v: nat) {
    if i < |s| && s[i] then 1 else 0
  }

  /** The entry an S-box input selects: its outer bits name the row, its inner four the column. */
  function SBoxInput(x: Bits, box: nat): (v: nat)
    ensures v < 64
  {
    var row := 2 * BitAt(x, 6 * box) + BitAt(x, 6 * box + 5);
    var column := 8 * BitAt(x, 6 * box + 1) + 4 * BitAt(x, 6 * box + 2) + 2 * BitAt(x, 6 * box + 3) + BitAt(x, 6 * box + 4);
    16 * row + column
  }

  function SBoxEntry(box: nat, v: nat): (e: nat)
    requires box < 8 && v < 64
    ensures e < 16
  {
    SBOXES[box][v]
  }

  /** The eight S-box outputs, four bits each. */
  function Substitute(x: Bits): (r: Bits)
  {
    seq(32, i requires 0 <= i < 32 => TestBit(SBoxEntry(i / 4, SBoxInput(x, i / 4)), 3 - i % 4))
  }

  /** The cipher function `f(R, K)` (FIPS PUB 46-3, "The Cipher Function f"). */
  function CipherFunction(r: Bits, k: Bits): (o: Bits)
  {
    Select(PPERM, Substitute(XorBits(Select(EPERM, r), k)))
  }

  /** Feistel rounds with any round function, one for each key. */
  function Rounds(f: (Bits, Bits) -> Bits, keys: seq<Bits>, l: Bits, r: Bits): (lr: (Bits, Bits))
    decreases |keys|
  {
    if keys == [] then (l, r) else Rounds(f, keys[1..], r, XorBits(l, f(r, keys[0])))
  }

  /** The whole transformation of a block under given subkeys. */
  function DesWith(keys: seq<Bits>, block: Bits): (out: Bits)
  {
    var start := Select(INITPERM, block);
    var (l, r) := Rounds(CipherFunction, keys, start[..32], start[32..]);
    Select(OUTPERM, r + l)
  }

  /** Enciphering: the subkeys in order. */
  function Encipher(key: Bits, block: Bits): (out: Bits)
  {
    DesWith(Subkeys(key), block)
  }

  function Reverse<T>(s: seq<T>): (r: seq<T>)
    ensures |r| == |s|
  {
    if s == [] then [] else Reverse(s[1..]) + [s[0]]
  }

  /** Deciphering: the same transformation with the subkeys in reverse order. */
  function Decipher(key: Bits, block: Bits): (out: Bits)
  {
    DesWith(Reverse(Subkeys(key)), block)
  }
}
