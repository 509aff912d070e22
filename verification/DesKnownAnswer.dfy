/**
 One block enciphered step by step: key 133457799BBCDFF1, block 0123456789ABCDEF. The round keys, the halves
 after every round and the result 85E813540F0AB405 are the numbers the algorithm of FIPS PUB 46-3 gives.
 */
module DesKnownAnswer {
  import opened Bytes
  import opened DesSpec
  import opened DesTheorems
  import opened DesFunction
  import opened PasswordEncrypt

  const KEY: seq<Byte> := [0x13, 0x34, 0x57, 0x79, 0x9B, 0xBC, 0xDF, 0xF1]
  const BLOCK: seq<Byte> := [0x01, 0x23, 0x45, 0x67, 0x89, 0xAB, 0xCD, 0xEF]
  const ANSWER: seq<Byte> := [0x85, 0xE8, 0x13, 0x54, 0x0F, 0x0A, 0xB4, 0x05]

  /** The key register before the first rotation. */
  const REGISTER: seq<Byte> := [0xF0, 0xCC, 0xAA, 0xF5, 0x56, 0x67, 0x8F]

  /** The halves: the left one of round `i`, counted from 0, is entry `i`, its right one entry `i + 1`. */
  const HALVES: seq<seq<Byte>> :=
    [[0xCC, 0x00, 0xCC, 0xFF], [0xF0, 0xAA, 0xF0, 0xAA], [0xEF, 0x4A, 0x65, 0x44]] +
    [[0xCC, 0x01, 0x77, 0x09], [0xA2, 0x5C, 0x0B, 0xF4], [0x77, 0x22, 0x00, 0x45]] +
    [[0x8A, 0x4F, 0xA6, 0x37], [0xE9, 0x67, 0xCD, 0x69], [0x06, 0x4A, 0xBA, 0x10]] +
    [[0xD5, 0x69, 0x4B, 0x90], [0x24, 0x7C, 0xC6, 0x7A], [0xB7, 0xD5, 0xD7, 0xB2]] +
    [[0xC5, 0x78, 0x3C, 0x78], [0x75, 0xBD, 0x18, 0x58], [0x18, 0xC3, 0x15, 0x5A]] +
    [[0xC2, 0x8C, 0x96, 0x0D], [0x43, 0x42, 0x32, 0x34], [0x0A, 0x4C, 0xD9, 0x95]]

  /** The round keys. */
  const KEYS: seq<seq<Byte>> :=
    [[0x1B, 0x02, 0xEF, 0xFC, 0x70, 0x72], [0x79, 0xAE, 0xD9, 0xDB, 0xC9, 0xE5]] +
    [[0x55, 0xFC, 0x8A, 0x42, 0xCF, 0x99], [0x72, 0xAD, 0xD6, 0xDB, 0x35, 0x1D]] +
    [[0x7C, 0xEC, 0x07, 0xEB, 0x53, 0xA8], [0x63, 0xA5, 0x3E, 0x50, 0x7B, 0x2F]] +
    [[0xEC, 0x84, 0xB7, 0xF6, 0x18, 0xBC], [0xF7, 0x8A, 0x3A, 0xC1, 0x3B, 0xFB]] +
    [[0xE0, 0xDB, 0xEB, 0xED, 0xE7, 0x81], [0xB1, 0xF3, 0x47, 0xBA, 0x46, 0x4F]] +
    [[0x21, 0x5F, 0xD3, 0xDE, 0xD3, 0x86], [0x75, 0x71, 0xF5, 0x94, 0x67, 0xE9]] +
    [[0x97, 0xC5, 0xD1, 0xFA, 0xBA, 0x41], [0x5F, 0x43, 0xB7, 0xF2, 0xE7, 0x3A]] +
    [[0xBF, 0x91, 0x8D, 0x3D, 0x3F, 0x0A], [0xCB, 0x3D, 0x8B, 0x0E, 0x17, 0xF5]]

  /** How far the halves of the register have turned. */
  const TURNS: seq<nat> := [1, 2, 4, 6, 8, 10, 12, 14, 15, 17, 19, 21, 23, 25, 27, 28]

  // ---- Bits of given bytes ----

  /** `v` is the number with the bits `a`, `b`, `c`, `d`. */
  ghost predicate IsNibble(v: nat, a: bool, b: bool, c: bool, d: bool) {
    && a == (v >= 8) && b == (v >= 12 || 4 <= v < 8)
    && c == (v >= 14 || 10 <= v < 12 || 6 <= v < 8 || 2 <= v < 4) && d == (v % 2 == 1)
  }

  /** `s` has the bits of the byte `v` from `o` on. */
  ghost predicate HasByte(s: Bits, o: nat, v: nat)
    requires o + 8 <= |s|
  {
    IsNibble(v / 16, s[o], s[o + 1], s[o + 2], s[o + 3]) && IsNibble(v % 16, s[o + 4], s[o + 5], s[o + 6], s[o + 7])
  }

  ghost predicate IsHalf(s: Bits, a: nat, b: nat, c: nat, d: nat) {
    |s| == 32 && HasByte(s, 0, a) && HasByte(s, 8, b) && HasByte(s, 16, c) && HasByte(s, 24, d)
  }

  ghost predicate IsKey(s: Bits, a: nat, b: nat, c: nat, d: nat, e: nat, f: nat) {
    |s| == 48 && HasByte(s, 0, a) && HasByte(s, 8, b) && HasByte(s, 16, c) && HasByte(s, 24, d) && HasByte(s, 32, e) && HasByte(s, 40, f)
  }

  ghost predicate IsRegister(s: Bits, a: nat, b: nat, c: nat, d: nat, e: nat, f: nat, g: nat) {
    && |s| == 56 && HasByte(s, 0, a) && HasByte(s, 8, b) && HasByte(s, 16, c) && HasByte(s, 24, d)
    && HasByte(s, 32, e) && HasByte(s, 40, f) && HasByte(s, 48, g)
  }

  ghost predicate IsBlock(s: Bits, a: nat, b: nat, c: nat, d: nat, e: nat, f: nat, g: nat, h: nat) {
    && |s| == 64 && HasByte(s, 0, a) && HasByte(s, 8, b) && HasByte(s, 16, c) && HasByte(s, 24, d)
    && HasByte(s, 32, e) && HasByte(s, 40, f) && HasByte(s, 48, g) && HasByte(s, 56, h)
  }

  lemma Quotients(v: nat)
    ensures v / 2 / 2 == v / 4 && v / 2 / 2 / 2 == v / 8 && v / 2 / 2 / 2 / 2 == v / 16
  {}

  lemma FourBits(v: nat)
    ensures TestBit(v, 3) == (v / 8 % 2 == 1) && TestBit(v, 2) == (v / 4 % 2 == 1)
    ensures TestBit(v, 1) == (v / 2 % 2 == 1) && TestBit(v, 0) == (v % 2 == 1)
  {
    Quotients(v);
    BitZero(v);
    BitZero(v / 2);
    BitZero(v / 4);
    BitZero(v / 8);
    NextBit(v, 2);
    NextBit(v / 2, 1);
    NextBit(v / 4, 0);
    NextBit(v, 1);
    NextBit(v / 2, 0);
    NextBit(v, 0);
    hide TestBit;
  }

  lemma BitZero(v: nat)
    ensures TestBit(v, 0) == (v % 2 == 1)
  {}

  lemma NextBit(v: nat, k: nat)
    ensures TestBit(v, k + 1) == TestBit(v / 2, k)
  {}

  /** The digit in front, shifted out two, four or eight places, leaves an even number. */
  lemma LowDigit(v: nat, q: nat, u: nat)
    requires v == 16 * q + u && u < 16
    ensures v / 8 == 2 * q + u / 8 && v / 4 == 4 * q + u / 4 && v / 2 == 8 * q + u / 2
  {}

  lemma NibbleOf(u: nat, e: nat, f: nat, t: nat)
    requires u < 16 && e == u / 8 && f == u / 4 && t == u / 2
    ensures IsNibble(u, e % 2 == 1, f % 2 == 1, t % 2 == 1, u % 2 == 1)
  {}

  lemma NibbleIs(v: nat)
    ensures IsNibble(v % 16, v / 8 % 2 == 1, v / 4 % 2 == 1, v / 2 % 2 == 1, v % 2 == 1)
  {
    hide IsNibble;
    var q, u := v / 16, v % 16;
    LowDigit(v, q, u);
    NibbleOf(u, u / 8, u / 4, u / 2);
    EvenLeft(q, u / 8);
    EvenLeft(2 * q, u / 4);
    EvenLeft(4 * q, u / 2);
    EvenLeft(8 * q, u);
  }

  lemma EvenLeft(a: nat, b: nat)
    ensures (2 * a + b) % 2 == b % 2
  {}

  lemma LowerBits(v: nat)
    ensures IsNibble(v % 16, TestBit(v, 3), TestBit(v, 2), TestBit(v, 1), TestBit(v, 0))
  {
    hide TestBit, IsNibble;
    FourBits(v);
    NibbleIs(v);
  }

  lemma UpperBit(v: nat, k: nat)
    ensures TestBit(v, k + 4) == TestBit(v / 16, k)
  {
    hide TestBit;
    Quotients(v);
    NextBit(v, k + 3);
    NextBit(v / 2, k + 2);
    NextBit(v / 2 / 2, k + 1);
    NextBit(v / 2 / 2 / 2, k);
  }

  lemma BitOf(b: seq<Byte>, i: nat, k: nat)
    requires i < |b| && k < 8
    ensures ToBits(b)[8 * i + k] == TestBit(b[i], 7 - k)
  {
    assert (8 * i + k) / 8 == i && (8 * i + k) % 8 == k;
  }

  lemma ByteIs(b: seq<Byte>, i: nat)
    requires i < |b|
    ensures HasByte(ToBits(b), 8 * i, b[i])
  {
    hide TestBit, IsNibble, ToBits;
    LowerNibble(b, i);
    UpperNibble(b, i);
  }

  lemma LowerNibble(b: seq<Byte>, i: nat)
    requires i < |b|
    ensures var s, o := ToBits(b), 8 * i; IsNibble(b[i] % 16, s[o + 4], s[o + 5], s[o + 6], s[o + 7])
  {
    hide TestBit, IsNibble, ToBits;
    LowerBits(b[i]);
    BitOf(b, i, 4);
    BitOf(b, i, 5);
    BitOf(b, i, 6);
    BitOf(b, i, 7);
  }

  lemma UpperNibble(b: seq<Byte>, i: nat)
    requires i < |b|
    ensures var s, o := ToBits(b), 8 * i; IsNibble(b[i] / 16, s[o], s[o + 1], s[o + 2], s[o + 3])
  {
    hide TestBit, IsNibble, ToBits;
    LowerBits(b[i] / 16);
    UpperBit(b[i], 0);
    UpperBit(b[i], 1);
    UpperBit(b[i], 2);
    UpperBit(b[i], 3);
    BitOf(b, i, 0);
    BitOf(b, i, 1);
    BitOf(b, i, 2);
    BitOf(b, i, 3);
  }

  lemma HalfIs(b: seq<Byte>)
    requires |b| == 4
    ensures IsHalf(ToBits(b), b[0], b[1], b[2], b[3])
  {
    hide HasByte;
    ByteIs(b, 0);
    ByteIs(b, 1);
    ByteIs(b, 2);
    ByteIs(b, 3);
  }

  lemma KeyIs(b: seq<Byte>)
    requires |b| == 6
    ensures IsKey(ToBits(b), b[0], b[1], b[2], b[3], b[4], b[5])
  {
    hide HasByte;
    HalfIs(b[..4]);
    ByteIs(b, 0);
    ByteIs(b, 1);
    ByteIs(b, 2);
    ByteIs(b, 3);
    ByteIs(b, 4);
    ByteIs(b, 5);
  }

  lemma RegisterIs(b: seq<Byte>)
    requires |b| == 7
    ensures |ToBits(b)| == 56
    ensures IsRegister(ToBits(b), b[0], b[1], b[2], b[3], b[4], b[5], b[6])
  {
    hide HasByte;
    ByteIs(b, 0);
    ByteIs(b, 1);
    ByteIs(b, 2);
    ByteIs(b, 3);
    ByteIs(b, 4);
    ByteIs(b, 5);
    ByteIs(b, 6);
  }

  lemma BlockIs(b: seq<Byte>)
    requires |b| == 8
    ensures IsBlock(ToBits(b), b[0], b[1], b[2], b[3], b[4], b[5], b[6], b[7])
  {
    hide HasByte;
    ByteIs(b, 0);
    ByteIs(b, 1);
    ByteIs(b, 2);
    ByteIs(b, 3);
    ByteIs(b, 4);
    ByteIs(b, 5);
    ByteIs(b, 6);
    ByteIs(b, 7);
  }

  // ---- Rounds ----

  /** The box holds at `v`, in row `2a + f` and column `8b + 4c + 2d + e`, the number with the bits `w`, `x`, `y`, `z`. */
  ghost predicate Fits(t: SBox, v: nat, a: bool, b: bool, c: bool, d: bool, e: bool, f: bool, w: bool, x: bool, y: bool, z: bool) {
    v < 64 && a == (v >= 32) && f == (v / 16 % 2 == 1) && IsNibble(v % 16, b, c, d, e) && IsNibble(t[v], w, x, y, z)
  }

  ghost predicate Box1(l: Bits, r: Bits, k: Bits, n: Bits, v: nat)
    requires |l| == |r| == |n| == 32 && |k| == 48
  {
    Fits(S1, v, r[31] != k[0], r[0] != k[1], r[1] != k[2], r[2] != k[3], r[3] != k[4], r[4] != k[5], l[8] != n[8], l[16] != n[16], l[22] != n[22], l[30] != n[30])
  }

  ghost predicate Box2(l: Bits, r: Bits, k: Bits, n: Bits, v: nat)
    requires |l| == |r| == |n| == 32 && |k| == 48
  {
    Fits(S2, v, r[3] != k[6], r[4] != k[7], r[5] != k[8], r[6] != k[9], r[7] != k[10], r[8] != k[11], l[12] != n[12], l[27] != n[27], l[1] != n[1], l[17] != n[17])
  }

  ghost predicate Box3(l: Bits, r: Bits, k: Bits, n: Bits, v: nat)
    requires |l| == |r| == |n| == 32 && |k| == 48
  {
    Fits(S3, v, r[7] != k[12], r[8] != k[13], r[9] != k[14], r[10] != k[15], r[11] != k[16], r[12] != k[17], l[23] != n[23], l[15] != n[15], l[29] != n[29], l[5] != n[5])
  }

  ghost predicate Box4(l: Bits, r: Bits, k: Bits, n: Bits, v: nat)
    requires |l| == |r| == |n| == 32 && |k| == 48
  {
    Fits(S4, v, r[11] != k[18], r[12] != k[19], r[13] != k[20], r[14] != k[21], r[15] != k[22], r[16] != k[23], l[25] != n[25], l[19] != n[19], l[9] != n[9], l[0] != n[0])
  }

  ghost predicate Box5(l: Bits, r: Bits, k: Bits, n: Bits, v: nat)
    requires |l| == |r| == |n| == 32 && |k| == 48
  {
    Fits(S5, v, r[15] != k[24], r[16] != k[25], r[17] != k[26], r[18] != k[27], r[19] != k[28], r[20] != k[29], l[7] != n[7], l[13] != n[13], l[24] != n[24], l[2] != n[2])
  }

  ghost predicate Box6(l: Bits, r: Bits, k: Bits, n: Bits, v: nat)
    requires |l| == |r| == |n| == 32 && |k| == 48
  {
    Fits(S6, v, r[19] != k[30], r[20] != k[31], r[21] != k[32], r[22] != k[33], r[23] != k[34], r[24] != k[35], l[3] != n[3], l[28] != n[28], l[10] != n[10], l[18] != n[18])
  }

  ghost predicate Box7(l: Bits, r: Bits, k: Bits, n: Bits, v: nat)
    requires |l| == |r| == |n| == 32 && |k| == 48
  {
    Fits(S7, v, r[23] != k[36], r[24] != k[37], r[25] != k[38], r[26] != k[39], r[27] != k[40], r[28] != k[41], l[31] != n[31], l[11] != n[11], l[21] != n[21], l[6] != n[6])
  }

  ghost predicate Box8(l: Bits, r: Bits, k: Bits, n: Bits, v: nat)
    requires |l| == |r| == |n| == 32 && |k| == 48
  {
    Fits(S8, v, r[27] != k[42], r[28] != k[43], r[29] != k[44], r[30] != k[45], r[31] != k[46], r[0] != k[47], l[4] != n[4], l[26] != n[26], l[14] != n[14], l[20] != n[20])
  }

  /** The new right half `n` differs from the left one where the boxes say so, which are entered at `v`. */
  ghost predicate BoxesAgree(l: Bits, r: Bits, k: Bits, n: Bits, v: seq<nat>) {
    && |l| == |r| == |n| == 32 && |k| == 48 && |v| == 8
    && Box1(l, r, k, n, v[0]) && Box2(l, r, k, n, v[1]) && Box3(l, r, k, n, v[2]) && Box4(l, r, k, n, v[3])
    && Box5(l, r, k, n, v[4]) && Box6(l, r, k, n, v[5]) && Box7(l, r, k, n, v[6]) && Box8(l, r, k, n, v[7])
  }

  lemma Round1(l: Bits, r: Bits, k: Bits, n: Bits) returns (v: seq<nat>)
    requires IsHalf(l, 0xCC, 0x00, 0xCC, 0xFF) && IsHalf(r, 0xF0, 0xAA, 0xF0, 0xAA)
    requires IsKey(k, 0x1B, 0x02, 0xEF, 0xFC, 0x70, 0x72) && IsHalf(n, 0xEF, 0x4A, 0x65, 0x44)
    ensures BoxesAgree(l, r, k, n, v)
  {
    v := [12, 24, 15, 45, 48, 35, 10, 51];
  }

  lemma Round2(l: Bits, r: Bits, k: Bits, n: Bits) returns (v: seq<nat>)
    requires IsHalf(l, 0xF0, 0xAA, 0xF0, 0xAA) && IsHalf(r, 0xEF, 0x4A, 0x65, 0x44)
    requires IsKey(k, 0x79, 0xAE, 0xD9, 0xDB, 0xC9, 0xE5) && IsHalf(n, 0xCC, 0x01, 0x77, 0x09)
    ensures BoxesAgree(l, r, k, n, v)
  {
    v := [17, 2, 9, 22, 45, 43, 23, 38];
  }

  lemma Round3(l: Bits, r: Bits, k: Bits, n: Bits) returns (v: seq<nat>)
    requires IsHalf(l, 0xEF, 0x4A, 0x65, 0x44) && IsHalf(r, 0xCC, 0x01, 0x77, 0x09)
    requires IsKey(k, 0x55, 0xFC, 0x8A, 0x42, 0xCF, 0x99) && IsHalf(n, 0xA2, 0x5C, 0x0B, 0xF4)
    ensures BoxesAgree(l, r, k, n, v)
  {
    v := [38, 19, 41, 4, 47, 1, 31, 5];
  }

  lemma Round4(l: Bits, r: Bits, k: Bits, n: Bits) returns (v: seq<nat>)
    requires IsHalf(l, 0xCC, 0x01, 0x77, 0x09) && IsHalf(r, 0xA2, 0x5C, 0x0B, 0xF4)
    requires IsKey(k, 0x72, 0xAD, 0xD6, 0xDB, 0x35, 0x1D) && IsHalf(n, 0x77, 0x22, 0x00, 0x45)
    ensures BoxesAgree(l, r, k, n, v)
  {
    v := [4, 39, 46, 39, 59, 34, 37, 42];
  }

  lemma Round5(l: Bits, r: Bits, k: Bits, n: Bits) returns (v: seq<nat>)
    requires IsHalf(l, 0xA2, 0x5C, 0x0B, 0xF4) && IsHalf(r, 0x77, 0x22, 0x00, 0x45)
    requires IsKey(k, 0x7C, 0xEC, 0x07, 0xEB, 0x53, 0xA8) && IsHalf(n, 0x8A, 0x4F, 0xA6, 0x37)
    ensures BoxesAgree(l, r, k, n, v)
  {
    v := [56, 32, 10, 17, 45, 58, 3, 33];
  }

  lemma Round6(l: Bits, r: Bits, k: Bits, n: Bits) returns (v: seq<nat>)
    requires IsHalf(l, 0x77, 0x22, 0x00, 0x45) && IsHalf(r, 0x8A, 0x4F, 0xA6, 0x37)
    requires IsKey(k, 0x63, 0xA5, 0x3E, 0x50, 0x7B, 0x2F) && IsHalf(n, 0xE9, 0x67, 0xCD, 0x69)
    ensures BoxesAgree(l, r, k, n, v)
  {
    v := [52, 39, 30, 48, 32, 21, 37, 0];
  }

  lemma Round7(l: Bits, r: Bits, k: Bits, n: Bits) returns (v: seq<nat>)
    requires IsHalf(l, 0x8A, 0x4F, 0xA6, 0x37) && IsHalf(r, 0xE9, 0x67, 0xCD, 0x69)
    requires IsKey(k, 0xEC, 0x84, 0xB7, 0xF6, 0x18, 0xBC) && IsHalf(n, 0x06, 0x4A, 0xBA, 0x10)
    ensures BoxesAgree(l, r, k, n, v)
  {
    v := [3, 13, 47, 44, 2, 61, 23, 55];
  }

  lemma Round8(l: Bits, r: Bits, k: Bits, n: Bits) returns (v: seq<nat>)
    requires IsHalf(l, 0xE9, 0x67, 0xCD, 0x69) && IsHalf(r, 0x06, 0x4A, 0xBA, 0x10)
    requires IsKey(k, 0xF7, 0x8A, 0x3A, 0xC1, 0x3B, 0xFB) && IsHalf(n, 0xD5, 0x69, 0x4B, 0x90)
    ensures BoxesAgree(l, r, k, n, v)
  {
    v := [62, 42, 48, 55, 51, 51, 54, 29];
  }

  lemma Round9(l: Bits, r: Bits, k: Bits, n: Bits) returns (v: seq<nat>)
    requires IsHalf(l, 0x06, 0x4A, 0xBA, 0x10) && IsHalf(r, 0xD5, 0x69, 0x4B, 0x90)
    requires IsKey(k, 0xE0, 0xDB, 0xEB, 0xED, 0xE7, 0x81) && IsHalf(n, 0x24, 0x7C, 0xC6, 0x7A)
    ensures BoxesAgree(l, r, k, n, v)
  {
    v := [33, 51, 1, 60, 9, 20, 38, 32];
  }

  lemma Round10(l: Bits, r: Bits, k: Bits, n: Bits) returns (v: seq<nat>)
    requires IsHalf(l, 0xD5, 0x69, 0x4B, 0x90) && IsHalf(r, 0x24, 0x7C, 0xC6, 0x7A)
    requires IsKey(k, 0xB1, 0xF3, 0x47, 0xBA, 0x46, 0x4F) && IsHalf(n, 0xB7, 0xD5, 0xD7, 0xB2)
    ensures BoxesAgree(l, r, k, n, v)
  {
    v := [36, 27, 1, 47, 43, 36, 11, 61];
  }

  lemma Round11(l: Bits, r: Bits, k: Bits, n: Bits) returns (v: seq<nat>)
    requires IsHalf(l, 0x24, 0x7C, 0xC6, 0x7A) && IsHalf(r, 0xB7, 0xD5, 0xD7, 0xB2)
    requires IsKey(k, 0x21, 0x5F, 0xD3, 0xDE, 0xD3, 0x86) && IsHalf(n, 0xC5, 0x78, 0x3C, 0x78)
    ensures BoxesAgree(l, r, k, n, v)
  {
    v := [15, 45, 18, 44, 22, 1, 44, 49];
  }

  lemma Round12(l: Bits, r: Bits, k: Bits, n: Bits) returns (v: seq<nat>)
    requires IsHalf(l, 0xB7, 0xD5, 0xD7, 0xB2) && IsHalf(r, 0xC5, 0x78, 0x3C, 0x78)
    requires IsKey(k, 0x75, 0x71, 0xF5, 0x94, 0x67, 0xE9) && IsHalf(n, 0x75, 0xBD, 0x18, 0x58)
    ensures BoxesAgree(l, r, k, n, v)
  {
    v := [18, 30, 36, 18, 33, 47, 8, 12];
  }

  lemma Round13(l: Bits, r: Bits, k: Bits, n: Bits) returns (v: seq<nat>)
    requires IsHalf(l, 0xC5, 0x78, 0x3C, 0x78) && IsHalf(r, 0x75, 0xBD, 0x18, 0x58)
    requires IsKey(k, 0x97, 0xC5, 0xD1, 0xFA, 0xBA, 0x41) && IsHalf(n, 0x18, 0xC3, 0x15, 0x5A)
    ensures BoxesAgree(l, r, k, n, v)
  {
    v := [53, 27, 32, 53, 30, 29, 33, 56];
  }

  lemma Round14(l: Bits, r: Bits, k: Bits, n: Bits) returns (v: seq<nat>)
    requires IsHalf(l, 0x75, 0xBD, 0x18, 0x58) && IsHalf(r, 0x18, 0xC3, 0x15, 0x5A)
    requires IsKey(k, 0x5F, 0x43, 0xB7, 0xF2, 0xE7, 0x3A) && IsHalf(n, 0xC2, 0x8C, 0x96, 0x0D)
    ensures BoxesAgree(l, r, k, n, v)
  {
    v := [10, 18, 11, 56, 15, 2, 59, 7];
  }

  lemma Round15(l: Bits, r: Bits, k: Bits, n: Bits) returns (v: seq<nat>)
    requires IsHalf(l, 0x18, 0xC3, 0x15, 0x5A) && IsHalf(r, 0xC2, 0x8C, 0x96, 0x0D)
    requires IsKey(k, 0xBF, 0x91, 0x8D, 0x3D, 0x3F, 0x0A) && IsHalf(n, 0x43, 0x42, 0x32, 0x34)
    ensures BoxesAgree(l, r, k, n, v)
  {
    v := [27, 46, 27, 10, 30, 63, 62, 24];
  }

  lemma Round16(l: Bits, r: Bits, k: Bits, n: Bits) returns (v: seq<nat>)
    requires IsHalf(l, 0xC2, 0x8C, 0x96, 0x0D) && IsHalf(r, 0x43, 0x42, 0x32, 0x34)
    requires IsKey(k, 0xCB, 0x3D, 0x8B, 0x0E, 0x17, 0xF5) && IsHalf(n, 0x0A, 0x4C, 0xD9, 0x95)
    ensures BoxesAgree(l, r, k, n, v)
  {
    v := [45, 58, 15, 23, 18, 18, 28, 30];
  }

  lemma NibbleNumber(v: nat, a: bool, b: bool, c: bool, d: bool)
    requires v < 16 && IsNibble(v, a, b, c, d)
    ensures v == 8 * Number(a) + 4 * Number(b) + 2 * Number(c) + Number(d)
  {}

  lemma Position(v: nat, a: bool, f: bool)
    requires v < 64 && a == (v >= 32) && f == (v / 16 % 2 == 1)
    ensures v == 16 * (2 * Number(a) + Number(f)) + v % 16
  {}

  /** `x` is at the positions a box drives what the cipher function is there. */
  ghost predicate Holds(r: Bits, k: Bits, x: Bits, box: nat)
    requires box < 8
  {
    Four(x, OUTPUTS[box]) == BoxValue(r, k, box)
  }

  /** The same with the bits as numbers. */
  ghost predicate Meets(t: SBox, v: nat, a: Binary, b: Binary, c: Binary, d: Binary, e: Binary, f: Binary, w: Binary, x: Binary, y: Binary, z: Binary) {
    v == 16 * (2 * a + f) + (8 * b + 4 * c + 2 * d + e) && t[v] == 8 * w + 4 * x + 2 * y + z
  }

  lemma FitsMeets(t: SBox, v: nat, a: bool, b: bool, c: bool, d: bool, e: bool, f: bool, w: bool, x: bool, y: bool, z: bool)
    requires Fits(t, v, a, b, c, d, e, f, w, x, y, z)
    ensures Meets(t, v, Number(a), Number(b), Number(c), Number(d), Number(e), Number(f), Number(w), Number(x), Number(y), Number(z))
  {
    hide IsNibble;
    NibbleNumber(v % 16, b, c, d, e);
    NibbleNumber(t[v], w, x, y, z);
    Position(v, a, f);
  }

  lemma BoxHolds(r: Bits, k: Bits, s: Bits, box: nat, v: nat, a: Binary, b: Binary, c: Binary, d: Binary, e: Binary, f: Binary, w: Binary, x: Binary, y: Binary, z: Binary)
    requires box < 8 && Meets(SBOXES[box], v, a, b, c, d, e, f, w, x, y, z)
    requires Mixed(r, k, box, 0) == a && Mixed(r, k, box, 1) == b && Mixed(r, k, box, 2) == c
    requires Mixed(r, k, box, 3) == d && Mixed(r, k, box, 4) == e && Mixed(r, k, box, 5) == f
    requires var o := OUTPUTS[box];
             Number(Bit(s, o[0])) == w && Number(Bit(s, o[1])) == x && Number(Bit(s, o[2])) == y && Number(Bit(s, o[3])) == z
    ensures Holds(r, k, s, box)
  {
    hide Mixed, Bit, SBOXES, OUTPUTS;
  }

  lemma Bits1(l: Bits, r: Bits, k: Bits, n: Bits, x: Bits)
    requires |l| == |r| == |n| == 32 && |k| == 48 && x == XorBits(l, n)
    ensures Mixed(r, k, 0, 0) == Number(r[31] != k[0]) && Mixed(r, k, 0, 1) == Number(r[0] != k[1]) && Mixed(r, k, 0, 2) == Number(r[1] != k[2])
    ensures Mixed(r, k, 0, 3) == Number(r[2] != k[3]) && Mixed(r, k, 0, 4) == Number(r[3] != k[4]) && Mixed(r, k, 0, 5) == Number(r[4] != k[5])
    ensures Number(Bit(x, OUTPUTS[0][0])) == Number(l[8] != n[8]) && Number(Bit(x, OUTPUTS[0][1])) == Number(l[16] != n[16])
    ensures Number(Bit(x, OUTPUTS[0][2])) == Number(l[22] != n[22]) && Number(Bit(x, OUTPUTS[0][3])) == Number(l[30] != n[30])
  {}

  lemma Entered1(l: Bits, r: Bits, k: Bits, n: Bits, v: nat)
    requires |l| == |r| == |n| == 32 && |k| == 48 && Box1(l, r, k, n, v)
    ensures Meets(SBOXES[0], v, Number(r[31] != k[0]), Number(r[0] != k[1]), Number(r[1] != k[2]), Number(r[2] != k[3]), Number(r[3] != k[4]), Number(r[4] != k[5]),
              Number(l[8] != n[8]), Number(l[16] != n[16]), Number(l[22] != n[22]), Number(l[30] != n[30]))
  {
    hide Fits, Meets, Row, SBOXES, S1, Number;
    FirstBox();
    FitsMeets(S1, v, r[31] != k[0], r[0] != k[1], r[1] != k[2], r[2] != k[3], r[3] != k[4], r[4] != k[5], l[8] != n[8], l[16] != n[16], l[22] != n[22], l[30] != n[30]);
  }

  lemma Fits1(l: Bits, r: Bits, k: Bits, n: Bits, x: Bits, v: nat)
    requires |l| == |r| == |n| == 32 && |k| == 48 && x == XorBits(l, n) && Box1(l, r, k, n, v)
    ensures Holds(r, k, x, 0)
  {
    hide Box1, Meets, SBOXES, Holds, Number, XorBits, Mixed, Bit, OUTPUTS;
    Entered1(l, r, k, n, v);
    Bits1(l, r, k, n, x);
    BoxHolds(r, k, x, 0, v, Number(r[31] != k[0]), Number(r[0] != k[1]), Number(r[1] != k[2]), Number(r[2] != k[3]), Number(r[3] != k[4]), Number(r[4] != k[5]),
      Number(l[8] != n[8]), Number(l[16] != n[16]), Number(l[22] != n[22]), Number(l[30] != n[30]));
  }

  lemma Bits2(l: Bits, r: Bits, k: Bits, n: Bits, x: Bits)
    requires |l| == |r| == |n| == 32 && |k| == 48 && x == XorBits(l, n)
    ensures Mixed(r, k, 1, 0) == Number(r[3] != k[6]) && Mixed(r, k, 1, 1) == Number(r[4] != k[7]) && Mixed(r, k, 1, 2) == Number(r[5] != k[8])
    ensures Mixed(r, k, 1, 3) == Number(r[6] != k[9]) && Mixed(r, k, 1, 4) == Number(r[7] != k[10]) && Mixed(r, k, 1, 5) == Number(r[8] != k[11])
    ensures Number(Bit(x, OUTPUTS[1][0])) == Number(l[12] != n[12]) && Number(Bit(x, OUTPUTS[1][1])) == Number(l[27] != n[27])
    ensures Number(Bit(x, OUTPUTS[1][2])) == Number(l[1] != n[1]) && Number(Bit(x, OUTPUTS[1][3])) == Number(l[17] != n[17])
  {}

  lemma Entered2(l: Bits, r: Bits, k: Bits, n: Bits, v: nat)
    requires |l| == |r| == |n| == 32 && |k| == 48 && Box2(l, r, k, n, v)
    ensures Meets(SBOXES[1], v, Number(r[3] != k[6]), Number(r[4] != k[7]), Number(r[5] != k[8]), Number(r[6] != k[9]), Number(r[7] != k[10]), Number(r[8] != k[11]),
              Number(l[12] != n[12]), Number(l[27] != n[27]), Number(l[1] != n[1]), Number(l[17] != n[17]))
  {
    hide Fits, Meets, Row, SBOXES, S2, Number;
    SecondBox();
    FitsMeets(S2, v, r[3] != k[6], r[4] != k[7], r[5] != k[8], r[6] != k[9], r[7] != k[10], r[8] != k[11], l[12] != n[12], l[27] != n[27], l[1] != n[1], l[17] != n[17]);
  }

  lemma Fits2(l: Bits, r: Bits, k: Bits, n: Bits, x: Bits, v: nat)
    requires |l| == |r| == |n| == 32 && |k| == 48 && x == XorBits(l, n) && Box2(l, r, k, n, v)
    ensures Holds(r, k, x, 1)
  {
    hide Box2, Meets, SBOXES, Holds, Number, XorBits, Mixed, Bit, OUTPUTS;
    Entered2(l, r, k, n, v);
    Bits2(l, r, k, n, x);
    BoxHolds(r, k, x, 1, v, Number(r[3] != k[6]), Number(r[4] != k[7]), Number(r[5] != k[8]), Number(r[6] != k[9]), Number(r[7] != k[10]), Number(r[8] != k[11]),
      Number(l[12] != n[12]), Number(l[27] != n[27]), Number(l[1] != n[1]), Number(l[17] != n[17]));
  }

  lemma Bits3(l: Bits, r: Bits, k: Bits, n: Bits, x: Bits)
    requires |l| == |r| == |n| == 32 && |k| == 48 && x == XorBits(l, n)
    ensures Mixed(r, k, 2, 0) == Number(r[7] != k[12]) && Mixed(r, k, 2, 1) == Number(r[8] != k[13]) && Mixed(r, k, 2, 2) == Number(r[9] != k[14])
    ensures Mixed(r, k, 2, 3) == Number(r[10] != k[15]) && Mixed(r, k, 2, 4) == Number(r[11] != k[16]) && Mixed(r, k, 2, 5) == Number(r[12] != k[17])
    ensures Number(Bit(x, OUTPUTS[2][0])) == Number(l[23] != n[23]) && Number(Bit(x, OUTPUTS[2][1])) == Number(l[15] != n[15])
    ensures Number(Bit(x, OUTPUTS[2][2])) == Number(l[29] != n[29]) && Number(Bit(x, OUTPUTS[2][3])) == Number(l[5] != n[5])
  {}

  lemma Entered3(l: Bits, r: Bits, k: Bits, n: Bits, v: nat)
    requires |l| == |r| == |n| == 32 && |k| == 48 && Box3(l, r, k, n, v)
    ensures Meets(SBOXES[2], v, Number(r[7] != k[12]), Number(r[8] != k[13]), Number(r[9] != k[14]), Number(r[10] != k[15]), Number(r[11] != k[16]), Number(r[12] != k[17]),
              Number(l[23] != n[23]), Number(l[15] != n[15]), Number(l[29] != n[29]), Number(l[5] != n[5]))
  {
    hide Fits, Meets, Row, SBOXES, S3, Number;
    ThirdBox();
    FitsMeets(S3, v, r[7] != k[12], r[8] != k[13], r[9] != k[14], r[10] != k[15], r[11] != k[16], r[12] != k[17], l[23] != n[23], l[15] != n[15], l[29] != n[29], l[5] != n[5]);
  }

  lemma Fits3(l: Bits, r: Bits, k: Bits, n: Bits, x: Bits, v: nat)
    requires |l| == |r| == |n| == 32 && |k| == 48 && x == XorBits(l, n) && Box3(l, r, k, n, v)
    ensures Holds(r, k, x, 2)
  {
    hide Box3, Meets, SBOXES, Holds, Number, XorBits, Mixed, Bit, OUTPUTS;
    Entered3(l, r, k, n, v);
    Bits3(l, r, k, n, x);
    BoxHolds(r, k, x, 2, v, Number(r[7] != k[12]), Number(r[8] != k[13]), Number(r[9] != k[14]), Number(r[10] != k[15]), Number(r[11] != k[16]), Number(r[12] != k[17]),
      Number(l[23] != n[23]), Number(l[15] != n[15]), Number(l[29] != n[29]), Number(l[5] != n[5]));
  }

  lemma Bits4(l: Bits, r: Bits, k: Bits, n: Bits, x: Bits)
    requires |l| == |r| == |n| == 32 && |k| == 48 && x == XorBits(l, n)
    ensures Mixed(r, k, 3, 0) == Number(r[11] != k[18]) && Mixed(r, k, 3, 1) == Number(r[12] != k[19]) && Mixed(r, k, 3, 2) == Number(r[13] != k[20])
    ensures Mixed(r, k, 3, 3) == Number(r[14] != k[21]) && Mixed(r, k, 3, 4) == Number(r[15] != k[22]) && Mixed(r, k, 3, 5) == Number(r[16] != k[23])
    ensures Number(Bit(x, OUTPUTS[3][0])) == Number(l[25] != n[25]) && Number(Bit(x, OUTPUTS[3][1])) == Number(l[19] != n[19])
    ensures Number(Bit(x, OUTPUTS[3][2])) == Number(l[9] != n[9]) && Number(Bit(x, OUTPUTS[3][3])) == Number(l[0] != n[0])
  {}

  lemma Entered4(l: Bits, r: Bits, k: Bits, n: Bits, v: nat)
    requires |l| == |r| == |n| == 32 && |k| == 48 && Box4(l, r, k, n, v)
    ensures Meets(SBOXES[3], v, Number(r[11] != k[18]), Number(r[12] != k[19]), Number(r[13] != k[20]), Number(r[14] != k[21]), Number(r[15] != k[22]), Number(r[16] != k[23]),
              Number(l[25] != n[25]), Number(l[19] != n[19]), Number(l[9] != n[9]), Number(l[0] != n[0]))
  {
    hide Fits, Meets, Row, SBOXES, S4, Number;
    FourthBox();
    FitsMeets(S4, v, r[11] != k[18], r[12] != k[19], r[13] != k[20], r[14] != k[21], r[15] != k[22], r[16] != k[23], l[25] != n[25], l[19] != n[19], l[9] != n[9], l[0] != n[0]);
  }

  lemma Fits4(l: Bits, r: Bits, k: Bits, n: Bits, x: Bits, v: nat)
    requires |l| == |r| == |n| == 32 && |k| == 48 && x == XorBits(l, n) && Box4(l, r, k, n, v)
    ensures Holds(r, k, x, 3)
  {
    hide Box4, Meets, SBOXES, Holds, Number, XorBits, Mixed, Bit, OUTPUTS;
    Entered4(l, r, k, n, v);
    Bits4(l, r, k, n, x);
    BoxHolds(r, k, x, 3, v, Number(r[11] != k[18]), Number(r[12] != k[19]), Number(r[13] != k[20]), Number(r[14] != k[21]), Number(r[15] != k[22]), Number(r[16] != k[23]),
      Number(l[25] != n[25]), Number(l[19] != n[19]), Number(l[9] != n[9]), Number(l[0] != n[0]));
  }

  lemma Bits5(l: Bits, r: Bits, k: Bits, n: Bits, x: Bits)
    requires |l| == |r| == |n| == 32 && |k| == 48 && x == XorBits(l, n)
    ensures Mixed(r, k, 4, 0) == Number(r[15] != k[24]) && Mixed(r, k, 4, 1) == Number(r[16] != k[25]) && Mixed(r, k, 4, 2) == Number(r[17] != k[26])
    ensures Mixed(r, k, 4, 3) == Number(r[18] != k[27]) && Mixed(r, k, 4, 4) == Number(r[19] != k[28]) && Mixed(r, k, 4, 5) == Number(r[20] != k[29])
    ensures Number(Bit(x, OUTPUTS[4][0])) == Number(l[7] != n[7]) && Number(Bit(x, OUTPUTS[4][1])) == Number(l[13] != n[13])
    ensures Number(Bit(x, OUTPUTS[4][2])) == Number(l[24] != n[24]) && Number(Bit(x, OUTPUTS[4][3])) == Number(l[2] != n[2])
  {}

  lemma Entered5(l: Bits, r: Bits, k: Bits, n: Bits, v: nat)
    requires |l| == |r| == |n| == 32 && |k| == 48 && Box5(l, r, k, n, v)
    ensures Meets(SBOXES[4], v, Number(r[15] != k[24]), Number(r[16] != k[25]), Number(r[17] != k[26]), Number(r[18] != k[27]), Number(r[19] != k[28]), Number(r[20] != k[29]),
              Number(l[7] != n[7]), Number(l[13] != n[13]), Number(l[24] != n[24]), Number(l[2] != n[2]))
  {
    hide Fits, Meets, Row, SBOXES, S5, Number;
    FifthBox();
    FitsMeets(S5, v, r[15] != k[24], r[16] != k[25], r[17] != k[26], r[18] != k[27], r[19] != k[28], r[20] != k[29], l[7] != n[7], l[13] != n[13], l[24] != n[24], l[2] != n[2]);
  }

  lemma Fits5(l: Bits, r: Bits, k: Bits, n: Bits, x: Bits, v: nat)
    requires |l| == |r| == |n| == 32 && |k| == 48 && x == XorBits(l, n) && Box5(l, r, k, n, v)
    ensures Holds(r, k, x, 4)
  {
    hide Box5, Meets, SBOXES, Holds, Number, XorBits, Mixed, Bit, OUTPUTS;
    Entered5(l, r, k, n, v);
    Bits5(l, r, k, n, x);
    BoxHolds(r, k, x, 4, v, Number(r[15] != k[24]), Number(r[16] != k[25]), Number(r[17] != k[26]), Number(r[18] != k[27]), Number(r[19] != k[28]), Number(r[20] != k[29]),
      Number(l[7] != n[7]), Number(l[13] != n[13]), Number(l[24] != n[24]), Number(l[2] != n[2]));
  }

  lemma Bits6(l: Bits, r: Bits, k: Bits, n: Bits, x: Bits)
    requires |l| == |r| == |n| == 32 && |k| == 48 && x == XorBits(l, n)
    ensures Mixed(r, k, 5, 0) == Number(r[19] != k[30]) && Mixed(r, k, 5, 1) == Number(r[20] != k[31]) && Mixed(r, k, 5, 2) == Number(r[21] != k[32])
    ensures Mixed(r, k, 5, 3) == Number(r[22] != k[33]) && Mixed(r, k, 5, 4) == Number(r[23] != k[34]) && Mixed(r, k, 5, 5) == Number(r[24] != k[35])
    ensures Number(Bit(x, OUTPUTS[5][0])) == Number(l[3] != n[3]) && Number(Bit(x, OUTPUTS[5][1])) == Number(l[28] != n[28])
    ensures Number(Bit(x, OUTPUTS[5][2])) == Number(l[10] != n[10]) && Number(Bit(x, OUTPUTS[5][3])) == Number(l[18] != n[18])
  {}

  lemma Entered6(l: Bits, r: Bits, k: Bits, n: Bits, v: nat)
    requires |l| == |r| == |n| == 32 && |k| == 48 && Box6(l, r, k, n, v)
    ensures Meets(SBOXES[5], v, Number(r[19] != k[30]), Number(r[20] != k[31]), Number(r[21] != k[32]), Number(r[22] != k[33]), Number(r[23] != k[34]), Number(r[24] != k[35]),
              Number(l[3] != n[3]), Number(l[28] != n[28]), Number(l[10] != n[10]), Number(l[18] != n[18]))
  {
    hide Fits, Meets, Row, SBOXES, S6, Number;
    SixthBox();
    FitsMeets(S6, v, r[19] != k[30], r[20] != k[31], r[21] != k[32], r[22] != k[33], r[23] != k[34], r[24] != k[35], l[3] != n[3], l[28] != n[28], l[10] != n[10], l[18] != n[18]);
  }

  lemma Fits6(l: Bits, r: Bits, k: Bits, n: Bits, x: Bits, v: nat)
    requires |l| == |r| == |n| == 32 && |k| == 48 && x == XorBits(l, n) && Box6(l, r, k, n, v)
    ensures Holds(r, k, x, 5)
  {
    hide Box6, Meets, SBOXES, Holds, Number, XorBits, Mixed, Bit, OUTPUTS;
    Entered6(l, r, k, n, v);
    Bits6(l, r, k, n, x);
    BoxHolds(r, k, x, 5, v, Number(r[19] != k[30]), Number(r[20] != k[31]), Number(r[21] != k[32]), Number(r[22] != k[33]), Number(r[23] != k[34]), Number(r[24] != k[35]),
      Number(l[3] != n[3]), Number(l[28] != n[28]), Number(l[10] != n[10]), Number(l[18] != n[18]));
  }

  lemma Bits7(l: Bits, r: Bits, k: Bits, n: Bits, x: Bits)
    requires |l| == |r| == |n| == 32 && |k| == 48 && x == XorBits(l, n)
    ensures Mixed(r, k, 6, 0) == Number(r[23] != k[36]) && Mixed(r, k, 6, 1) == Number(r[24] != k[37]) && Mixed(r, k, 6, 2) == Number(r[25] != k[38])
    ensures Mixed(r, k, 6, 3) == Number(r[26] != k[39]) && Mixed(r, k, 6, 4) == Number(r[27] != k[40]) && Mixed(r, k, 6, 5) == Number(r[28] != k[41])
    ensures Number(Bit(x, OUTPUTS[6][0])) == Number(l[31] != n[31]) && Number(Bit(x, OUTPUTS[6][1])) == Number(l[11] != n[11])
    ensures Number(Bit(x, OUTPUTS[6][2])) == Number(l[21] != n[21]) && Number(Bit(x, OUTPUTS[6][3])) == Number(l[6] != n[6])
  {}

  lemma Entered7(l: Bits, r: Bits, k: Bits, n: Bits, v: nat)
    requires |l| == |r| == |n| == 32 && |k| == 48 && Box7(l, r, k, n, v)
    ensures Meets(SBOXES[6], v, Number(r[23] != k[36]), Number(r[24] != k[37]), Number(r[25] != k[38]), Number(r[26] != k[39]), Number(r[27] != k[40]), Number(r[28] != k[41]),
              Number(l[31] != n[31]), Number(l[11] != n[11]), Number(l[21] != n[21]), Number(l[6] != n[6]))
  {
    hide Fits, Meets, Row, SBOXES, S7, Number;
    SeventhBox();
    FitsMeets(S7, v, r[23] != k[36], r[24] != k[37], r[25] != k[38], r[26] != k[39], r[27] != k[40], r[28] != k[41], l[31] != n[31], l[11] != n[11], l[21] != n[21], l[6] != n[6]);
  }

  lemma Fits7(l: Bits, r: Bits, k: Bits, n: Bits, x: Bits, v: nat)
    requires |l| == |r| == |n| == 32 && |k| == 48 && x == XorBits(l, n) && Box7(l, r, k, n, v)
    ensures Holds(r, k, x, 6)
  {
    hide Box7, Meets, SBOXES, Holds, Number, XorBits, Mixed, Bit, OUTPUTS;
    Entered7(l, r, k, n, v);
    Bits7(l, r, k, n, x);
    BoxHolds(r, k, x, 6, v, Number(r[23] != k[36]), Number(r[24] != k[37]), Number(r[25] != k[38]), Number(r[26] != k[39]), Number(r[27] != k[40]), Number(r[28] != k[41]),
      Number(l[31] != n[31]), Number(l[11] != n[11]), Number(l[21] != n[21]), Number(l[6] != n[6]));
  }

  lemma Bits8(l: Bits, r: Bits, k: Bits, n: Bits, x: Bits)
    requires |l| == |r| == |n| == 32 && |k| == 48 && x == XorBits(l, n)
    ensures Mixed(r, k, 7, 0) == Number(r[27] != k[42]) && Mixed(r, k, 7, 1) == Number(r[28] != k[43]) && Mixed(r, k, 7, 2) == Number(r[29] != k[44])
    ensures Mixed(r, k, 7, 3) == Number(r[30] != k[45]) && Mixed(r, k, 7, 4) == Number(r[31] != k[46]) && Mixed(r, k, 7, 5) == Number(r[0] != k[47])
    ensures Number(Bit(x, OUTPUTS[7][0])) == Number(l[4] != n[4]) && Number(Bit(x, OUTPUTS[7][1])) == Number(l[26] != n[26])
    ensures Number(Bit(x, OUTPUTS[7][2])) == Number(l[14] != n[14]) && Number(Bit(x, OUTPUTS[7][3])) == Number(l[20] != n[20])
  {}

  lemma Entered8(l: Bits, r: Bits, k: Bits, n: Bits, v: nat)
    requires |l| == |r| == |n| == 32 && |k| == 48 && Box8(l, r, k, n, v)
    ensures Meets(SBOXES[7], v, Number(r[27] != k[42]), Number(r[28] != k[43]), Number(r[29] != k[44]), Number(r[30] != k[45]), Number(r[31] != k[46]), Number(r[0] != k[47]),
              Number(l[4] != n[4]), Number(l[26] != n[26]), Number(l[14] != n[14]), Number(l[20] != n[20]))
  {
    hide Fits, Meets, Row, SBOXES, S8, Number;
    EighthBox();
    FitsMeets(S8, v, r[27] != k[42], r[28] != k[43], r[29] != k[44], r[30] != k[45], r[31] != k[46], r[0] != k[47], l[4] != n[4], l[26] != n[26], l[14] != n[14], l[20] != n[20]);
  }

  lemma Fits8(l: Bits, r: Bits, k: Bits, n: Bits, x: Bits, v: nat)
    requires |l| == |r| == |n| == 32 && |k| == 48 && x == XorBits(l, n) && Box8(l, r, k, n, v)
    ensures Holds(r, k, x, 7)
  {
    hide Box8, Meets, SBOXES, Holds, Number, XorBits, Mixed, Bit, OUTPUTS;
    Entered8(l, r, k, n, v);
    Bits8(l, r, k, n, x);
    BoxHolds(r, k, x, 7, v, Number(r[27] != k[42]), Number(r[28] != k[43]), Number(r[29] != k[44]), Number(r[30] != k[45]), Number(r[31] != k[46]), Number(r[0] != k[47]),
      Number(l[4] != n[4]), Number(l[26] != n[26]), Number(l[14] != n[14]), Number(l[20] != n[20]));
  }

  lemma AllHold(l: Bits, r: Bits, k: Bits, n: Bits, v: seq<nat>, box: nat)
    requires BoxesAgree(l, r, k, n, v) && box < 8
    ensures Holds(r, k, XorBits(l, n), box)
  {
    hide Holds, XorBits, Box1, Box2, Box3, Box4, Box5, Box6, Box7, Box8;
    var x := XorBits(l, n);
    Fits1(l, r, k, n, x, v[0]);
    Fits2(l, r, k, n, x, v[1]);
    Fits3(l, r, k, n, x, v[2]);
    Fits4(l, r, k, n, x, v[3]);
    Fits5(l, r, k, n, x, v[4]);
    Fits6(l, r, k, n, x, v[5]);
    Fits7(l, r, k, n, x, v[6]);
    Fits8(l, r, k, n, x, v[7]);
  }

  lemma FourSame(s: Bits, t: Bits, p: FourPositions, j: nat)
    requires j < 4 && Four(s, p) == Four(t, p)
    ensures Bit(s, p[j]) == Bit(t, p[j])
  {
    hide Bit;
  }

  lemma SamePosition(r: Bits, k: Bits, x: Bits, p: nat)
    requires |r| == |x| == 32 && |k| == 48 && 1 <= p <= 32
    requires forall box: nat | box < 8 :: Holds(r, k, x, box)
    ensures |CipherFunction(r, k)| == 32 && CipherFunction(r, k)[p - 1] == x[p - 1]
  {
    var box, j := EveryPosition(p);
    hide CipherFunction, BoxValue, OUTPUTS, Four;
    assert Holds(r, k, x, box);
    CipherFunctionIs(r, k, box);
    FourSame(CipherFunction(r, k), x, OUTPUTS[box], j);
  }

  lemma XorTwice(l: Bits, n: Bits)
    requires |l| == |n|
    ensures XorBits(l, XorBits(l, n)) == n
  {}

  /** If all boxes agree, `n` is the left half mixed with the cipher function of the right one. */
  lemma RoundIs(l: Bits, r: Bits, k: Bits, n: Bits, v: seq<nat>)
    requires BoxesAgree(l, r, k, n, v)
    ensures XorBits(l, CipherFunction(r, k)) == n
  {
    var x := XorBits(l, n);
    XorTwice(l, n);
    assert |x| == 32;
    hide XorBits, CipherFunction, Holds, Box1, Box2, Box3, Box4, Box5, Box6, Box7, Box8;
    forall box: nat | box < 8 ensures Holds(r, k, x, box) {
      AllHold(l, r, k, n, v, box);
    }
    forall i | 0 <= i < 32 ensures |CipherFunction(r, k)| == 32 && CipherFunction(r, k)[i] == x[i] {
      SamePosition(r, k, x, i + 1);
    }
    LengthsOf(r, k);
    assert CipherFunction(r, k) == x;
  }

  // ---- Round keys ----

  /** The bit at position `p` of the register whose halves have turned left. */
  predicate Turned(cd: Bits, p: nat, turn: nat)
    requires |cd| == 56 && 1 <= p <= 56 && turn <= 28
  {
    if p <= 28 then cd[(p - 1 + turn) % 28] else cd[28 + (p - 29 + turn) % 28]
  }

  ghost predicate KeyBits0(cd: Bits, turn: nat, k: Bits)
    requires |cd| == 56 && |k| == 48 && turn <= 28
  {
    && k[0] == Turned(cd, 14, turn) && k[1] == Turned(cd, 17, turn) && k[2] == Turned(cd, 11, turn) && k[3] == Turned(cd, 24, turn)
    && k[4] == Turned(cd, 1, turn) && k[5] == Turned(cd, 5, turn) && k[6] == Turned(cd, 3, turn) && k[7] == Turned(cd, 28, turn)
    && k[8] == Turned(cd, 15, turn) && k[9] == Turned(cd, 6, turn) && k[10] == Turned(cd, 21, turn) && k[11] == Turned(cd, 10, turn)
  }

  ghost predicate KeyBits12(cd: Bits, turn: nat, k: Bits)
    requires |cd| == 56 && |k| == 48 && turn <= 28
  {
    && k[12] == Turned(cd, 23, turn) && k[13] == Turned(cd, 19, turn) && k[14] == Turned(cd, 12, turn) && k[15] == Turned(cd, 4, turn)
    && k[16] == Turned(cd, 26, turn) && k[17] == Turned(cd, 8, turn) && k[18] == Turned(cd, 16, turn) && k[19] == Turned(cd, 7, turn)
    && k[20] == Turned(cd, 27, turn) && k[21] == Turned(cd, 20, turn) && k[22] == Turned(cd, 13, turn) && k[23] == Turned(cd, 2, turn)
  }

  ghost predicate KeyBits24(cd: Bits, turn: nat, k: Bits)
    requires |cd| == 56 && |k| == 48 && turn <= 28
  {
    && k[24] == Turned(cd, 41, turn) && k[25] == Turned(cd, 52, turn) && k[26] == Turned(cd, 31, turn) && k[27] == Turned(cd, 37, turn)
    && k[28] == Turned(cd, 47, turn) && k[29] == Turned(cd, 55, turn) && k[30] == Turned(cd, 30, turn) && k[31] == Turned(cd, 40, turn)
    && k[32] == Turned(cd, 51, turn) && k[33] == Turned(cd, 45, turn) && k[34] == Turned(cd, 33, turn) && k[35] == Turned(cd, 48, turn)
  }

  ghost predicate KeyBits36(cd: Bits, turn: nat, k: Bits)
    requires |cd| == 56 && |k| == 48 && turn <= 28
  {
    && k[36] == Turned(cd, 44, turn) && k[37] == Turned(cd, 49, turn) && k[38] == Turned(cd, 39, turn) && k[39] == Turned(cd, 56, turn)
    && k[40] == Turned(cd, 34, turn) && k[41] == Turned(cd, 53, turn) && k[42] == Turned(cd, 46, turn) && k[43] == Turned(cd, 42, turn)
    && k[44] == Turned(cd, 50, turn) && k[45] == Turned(cd, 36, turn) && k[46] == Turned(cd, 29, turn) && k[47] == Turned(cd, 32, turn)
  }

  ghost predicate KeyBits(cd: Bits, turn: nat, k: Bits)
    requires |cd| == 56 && turn <= 28
  {
    |k| == 48 && KeyBits0(cd, turn, k) && KeyBits12(cd, turn, k) && KeyBits24(cd, turn, k) && KeyBits36(cd, turn, k)
  }

  lemma Key1(cd: Bits, k: Bits)
    requires IsRegister(cd, 0xF0, 0xCC, 0xAA, 0xF5, 0x56, 0x67, 0x8F) && IsKey(k, 0x1B, 0x02, 0xEF, 0xFC, 0x70, 0x72)
    ensures KeyBits(cd, 1, k)
  {}

  lemma Key2(cd: Bits, k: Bits)
    requires IsRegister(cd, 0xF0, 0xCC, 0xAA, 0xF5, 0x56, 0x67, 0x8F) && IsKey(k, 0x79, 0xAE, 0xD9, 0xDB, 0xC9, 0xE5)
    ensures KeyBits(cd, 2, k)
  {}

  lemma Key3(cd: Bits, k: Bits)
    requires IsRegister(cd, 0xF0, 0xCC, 0xAA, 0xF5, 0x56, 0x67, 0x8F) && IsKey(k, 0x55, 0xFC, 0x8A, 0x42, 0xCF, 0x99)
    ensures KeyBits(cd, 4, k)
  {}

  lemma Key4(cd: Bits, k: Bits)
    requires IsRegister(cd, 0xF0, 0xCC, 0xAA, 0xF5, 0x56, 0x67, 0x8F) && IsKey(k, 0x72, 0xAD, 0xD6, 0xDB, 0x35, 0x1D)
    ensures KeyBits(cd, 6, k)
  {}

  lemma Key5(cd: Bits, k: Bits)
    requires IsRegister(cd, 0xF0, 0xCC, 0xAA, 0xF5, 0x56, 0x67, 0x8F) && IsKey(k, 0x7C, 0xEC, 0x07, 0xEB, 0x53, 0xA8)
    ensures KeyBits(cd, 8, k)
  {}

  lemma Key6(cd: Bits, k: Bits)
    requires IsRegister(cd, 0xF0, 0xCC, 0xAA, 0xF5, 0x56, 0x67, 0x8F) && IsKey(k, 0x63, 0xA5, 0x3E, 0x50, 0x7B, 0x2F)
    ensures KeyBits(cd, 10, k)
  {}

  lemma Key7(cd: Bits, k: Bits)
    requires IsRegister(cd, 0xF0, 0xCC, 0xAA, 0xF5, 0x56, 0x67, 0x8F) && IsKey(k, 0xEC, 0x84, 0xB7, 0xF6, 0x18, 0xBC)
    ensures KeyBits(cd, 12, k)
  {}

  lemma Key8(cd: Bits, k: Bits)
    requires IsRegister(cd, 0xF0, 0xCC, 0xAA, 0xF5, 0x56, 0x67, 0x8F) && IsKey(k, 0xF7, 0x8A, 0x3A, 0xC1, 0x3B, 0xFB)
    ensures KeyBits(cd, 14, k)
  {}

  lemma Key9(cd: Bits, k: Bits)
    requires IsRegister(cd, 0xF0, 0xCC, 0xAA, 0xF5, 0x56, 0x67, 0x8F) && IsKey(k, 0xE0, 0xDB, 0xEB, 0xED, 0xE7, 0x81)
    ensures KeyBits(cd, 15, k)
  {}

  lemma Key10(cd: Bits, k: Bits)
    requires IsRegister(cd, 0xF0, 0xCC, 0xAA, 0xF5, 0x56, 0x67, 0x8F) && IsKey(k, 0xB1, 0xF3, 0x47, 0xBA, 0x46, 0x4F)
    ensures KeyBits(cd, 17, k)
  {}

  lemma Key11(cd: Bits, k: Bits)
    requires IsRegister(cd, 0xF0, 0xCC, 0xAA, 0xF5, 0x56, 0x67, 0x8F) && IsKey(k, 0x21, 0x5F, 0xD3, 0xDE, 0xD3, 0x86)
    ensures KeyBits(cd, 19, k)
  {}

  lemma Key12(cd: Bits, k: Bits)
    requires IsRegister(cd, 0xF0, 0xCC, 0xAA, 0xF5, 0x56, 0x67, 0x8F) && IsKey(k, 0x75, 0x71, 0xF5, 0x94, 0x67, 0xE9)
    ensures KeyBits(cd, 21, k)
  {}

  lemma Key13(cd: Bits, k: Bits)
    requires IsRegister(cd, 0xF0, 0xCC, 0xAA, 0xF5, 0x56, 0x67, 0x8F) && IsKey(k, 0x97, 0xC5, 0xD1, 0xFA, 0xBA, 0x41)
    ensures KeyBits(cd, 23, k)
  {}

  lemma Key14(cd: Bits, k: Bits)
    requires IsRegister(cd, 0xF0, 0xCC, 0xAA, 0xF5, 0x56, 0x67, 0x8F) && IsKey(k, 0x5F, 0x43, 0xB7, 0xF2, 0xE7, 0x3A)
    ensures KeyBits(cd, 25, k)
  {}

  lemma Key15(cd: Bits, k: Bits)
    requires IsRegister(cd, 0xF0, 0xCC, 0xAA, 0xF5, 0x56, 0x67, 0x8F) && IsKey(k, 0xBF, 0x91, 0x8D, 0x3D, 0x3F, 0x0A)
    ensures KeyBits(cd, 27, k)
  {}

  lemma Key16(cd: Bits, k: Bits)
    requires IsRegister(cd, 0xF0, 0xCC, 0xAA, 0xF5, 0x56, 0x67, 0x8F) && IsKey(k, 0xCB, 0x3D, 0x8B, 0x0E, 0x17, 0xF5)
    ensures KeyBits(cd, 28, k)
  {}

  lemma PC2Bits0(cd: Bits, turn: nat, k: Bits, j: nat)
    requires |cd| == 56 && |k| == 48 && turn <= 28 && KeyBits0(cd, turn, k) && j < 12
    ensures k[0 + j] == Turned(cd, PC2[0 + j], turn)
  {
    hide Turned;
  }

  lemma PC2Bits12(cd: Bits, turn: nat, k: Bits, j: nat)
    requires |cd| == 56 && |k| == 48 && turn <= 28 && KeyBits12(cd, turn, k) && j < 12
    ensures k[12 + j] == Turned(cd, PC2[12 + j], turn)
  {
    hide Turned;
  }

  lemma PC2Bits24(cd: Bits, turn: nat, k: Bits, j: nat)
    requires |cd| == 56 && |k| == 48 && turn <= 28 && KeyBits24(cd, turn, k) && j < 12
    ensures k[24 + j] == Turned(cd, PC2[24 + j], turn)
  {
    hide Turned;
  }

  lemma PC2Bits36(cd: Bits, turn: nat, k: Bits, j: nat)
    requires |cd| == 56 && |k| == 48 && turn <= 28 && KeyBits36(cd, turn, k) && j < 12
    ensures k[36 + j] == Turned(cd, PC2[36 + j], turn)
  {
    hide Turned;
  }

  lemma PC2Bits(cd: Bits, turn: nat, k: Bits, j: nat)
    requires |cd| == 56 && turn <= 28 && KeyBits(cd, turn, k) && j < 48
    ensures k[j] == Turned(cd, PC2[j], turn)
  {
    hide Turned, KeyBits0, KeyBits12, KeyBits24, KeyBits36, PC2;
    if j < 12 {
      PC2Bits0(cd, turn, k, j);
    } else if j < 24 {
      PC2Bits12(cd, turn, k, j - 12);
    } else if j < 36 {
      PC2Bits24(cd, turn, k, j - 24);
    } else {
      PC2Bits36(cd, turn, k, j - 36);
    }
  }

  lemma TurnedBit(cd: Bits, turn: nat, p: nat)
    requires |cd| == 56 && turn <= 28 && 1 <= p <= 56
    ensures RotateHalves(cd, turn)[p - 1] == Turned(cd, p, turn)
  {
  }

  lemma KeyIsSelected(cd: Bits, turn: nat, k: Bits)
    requires |cd| == 56 && turn <= 28 && KeyBits(cd, turn, k)
    ensures Select(PC2, RotateHalves(cd, turn)) == k
  {
    assert |k| == 48 && |PC2| == 48;
    hide KeyBits, Turned, RotateHalves, PC2;
    var reg := RotateHalves(cd, turn);
    forall j: nat | j < 48 ensures Select(PC2, reg)[j] == k[j] {
      PC2Bits(cd, turn, k, j);
      TurnedBit(cd, turn, PC2[j]);
    }
  }

  // ---- Permutations ----

  /** Eight bits of `out` from `o` on are the ones of `s` that the table names. */
  ghost predicate Selects(t: seq<nat>, s: Bits, out: Bits, o: nat)
    requires o + 8 <= |t| && o + 8 <= |out|
  {
    && out[o] == Bit(s, t[o]) && out[o + 1] == Bit(s, t[o + 1]) && out[o + 2] == Bit(s, t[o + 2]) && out[o + 3] == Bit(s, t[o + 3])
    && out[o + 4] == Bit(s, t[o + 4]) && out[o + 5] == Bit(s, t[o + 5]) && out[o + 6] == Bit(s, t[o + 6]) && out[o + 7] == Bit(s, t[o + 7])
  }

  ghost predicate AllSelected(t: seq<nat>, s: Bits, out: Bits) {
    && |t| == |out| && (|t| == 56 || |t| == 64)
    && Selects(t, s, out, 0) && Selects(t, s, out, 8) && Selects(t, s, out, 16) && Selects(t, s, out, 24)
    && Selects(t, s, out, 32) && Selects(t, s, out, 40) && Selects(t, s, out, 48) && (|t| == 64 ==> Selects(t, s, out, 56))
  }

  lemma RegisterSelected(key: Bits, cd: Bits)
    requires IsBlock(key, 0x13, 0x34, 0x57, 0x79, 0x9B, 0xBC, 0xDF, 0xF1)
    requires IsRegister(cd, 0xF0, 0xCC, 0xAA, 0xF5, 0x56, 0x67, 0x8F)
    ensures AllSelected(PC1, key, cd)
  {}

  lemma StartSelected(block: Bits, lr: Bits)
    requires IsBlock(block, 0x01, 0x23, 0x45, 0x67, 0x89, 0xAB, 0xCD, 0xEF)
    requires IsBlock(lr, 0xCC, 0x00, 0xCC, 0xFF, 0xF0, 0xAA, 0xF0, 0xAA)
    ensures AllSelected(INITPERM, block, lr)
  {}

  lemma AnswerSelected(rl: Bits, answer: Bits)
    requires IsBlock(rl, 0x0A, 0x4C, 0xD9, 0x95, 0x43, 0x42, 0x32, 0x34)
    requires IsBlock(answer, 0x85, 0xE8, 0x13, 0x54, 0x0F, 0x0A, 0xB4, 0x05)
    ensures AllSelected(OUTPERM, rl, answer)
  {}

  lemma SelectBit(t: seq<nat>, s: Bits, i: nat)
    requires i < |t|
    ensures |Select(t, s)| == |t| && Select(t, s)[i] == Bit(s, t[i])
  {}

  lemma SelectionIs(t: seq<nat>, s: Bits, out: Bits)
    requires AllSelected(t, s, out)
    ensures Select(t, s) == out
  {
    var all := Select(t, s);
    assert |all| == |t| == |out|;
    hide AllSelected, Select, Bit;
    forall i: nat | i < |t| ensures all[i] == out[i] {
      SelectBit(t, s, i);
      SelectionAt(t, s, out, i);
    }
  }

  lemma SelectionAt(t: seq<nat>, s: Bits, out: Bits, i: nat)
    requires AllSelected(t, s, out) && i < |t|
    ensures |t| == |out| && out[i] == Bit(s, t[i])
  {
    hide Bit, Selects;
    if i < 8 {
      GroupAt(t, s, out, 0, i);
    } else if i < 16 {
      GroupAt(t, s, out, 8, i - 8);
    } else if i < 24 {
      GroupAt(t, s, out, 16, i - 16);
    } else if i < 32 {
      GroupAt(t, s, out, 24, i - 24);
    } else if i < 40 {
      GroupAt(t, s, out, 32, i - 32);
    } else if i < 48 {
      GroupAt(t, s, out, 40, i - 40);
    } else if i < 56 {
      GroupAt(t, s, out, 48, i - 48);
    } else {
      GroupAt(t, s, out, 56, i - 56);
    }
  }

  lemma GroupAt(t: seq<nat>, s: Bits, out: Bits, o: nat, i: nat)
    requires o + 8 <= |t| == |out| && i < 8 && Selects(t, s, out, o)
    ensures out[o + i] == Bit(s, t[o + i])
  {
    hide Bit;
  }

  // ---- The whole computation ----

  lemma TheRegister()
    ensures Select(PC1, ToBits(KEY)) == ToBits(REGISTER)
  {
    var key, cd := ToBits(KEY), ToBits(REGISTER);
    hide AllSelected, Select, ToBits, PC1, IsBlock, IsRegister;
    BlockIs(KEY);
    RegisterIs(REGISTER);
    RegisterSelected(key, cd);
    SelectionIs(PC1, key, cd);
  }

  lemma HalvesJoin(a: seq<Byte>, b: seq<Byte>)
    requires |a| == |b| == 4
    ensures ToBits(a + b) == ToBits(a) + ToBits(b) && |ToBits(a)| == |ToBits(b)| == 32
  {}

  lemma TheStart()
    ensures Select(INITPERM, ToBits(BLOCK)) == ToBits(HALVES[0]) + ToBits(HALVES[1]) && |ToBits(HALVES[0])| == 32
  {
    var block, lr := ToBits(BLOCK), ToBits(HALVES[0] + HALVES[1]);
    hide AllSelected, Select, ToBits, INITPERM, IsBlock;
    BlockIs(BLOCK);
    BlockIs(HALVES[0] + HALVES[1]);
    StartSelected(block, lr);
    SelectionIs(INITPERM, block, lr);
    HalvesJoin(HALVES[0], HALVES[1]);
  }

  lemma TheEnd()
    ensures Select(OUTPERM, ToBits(HALVES[17]) + ToBits(HALVES[16])) == ToBits(ANSWER)
  {
    var rl, answer := ToBits(HALVES[17] + HALVES[16]), ToBits(ANSWER);
    hide AllSelected, Select, ToBits, OUTPERM, IsBlock;
    BlockIs(HALVES[17] + HALVES[16]);
    BlockIs(ANSWER);
    AnswerSelected(rl, answer);
    SelectionIs(OUTPERM, rl, answer);
    HalvesJoin(HALVES[17], HALVES[16]);
  }

  lemma TurnAt(i: nat)
    requires i < 16
    ensures TotalShift(i + 1) == TURNS[i]
    decreases i
  {
    if i > 0 {
      TurnAt(i - 1);
    }
  }

  lemma KeyBitsAt(i: nat)
    requires i < 16
    ensures |ToBits(REGISTER)| == 56 && TURNS[i] <= 28
    ensures KeyBits(ToBits(REGISTER), TURNS[i], ToBits(KEYS[i]))
  {
    hide KeyBits, ToBits, IsKey, IsRegister;
    var cd, k := ToBits(REGISTER), ToBits(KEYS[i]);
    RegisterIs(REGISTER);
    KeyIs(KEYS[i]);
    if i == 0 {
      Key1(cd, k);
    } else if i == 1 {
      Key2(cd, k);
    } else if i == 2 {
      Key3(cd, k);
    } else if i == 3 {
      Key4(cd, k);
    } else if i == 4 {
      Key5(cd, k);
    } else if i == 5 {
      Key6(cd, k);
    } else if i == 6 {
      Key7(cd, k);
    } else if i == 7 {
      Key8(cd, k);
    } else if i == 8 {
      Key9(cd, k);
    } else if i == 9 {
      Key10(cd, k);
    } else if i == 10 {
      Key11(cd, k);
    } else if i == 11 {
      Key12(cd, k);
    } else if i == 12 {
      Key13(cd, k);
    } else if i == 13 {
      Key14(cd, k);
    } else if i == 14 {
      Key15(cd, k);
    } else {
      Key16(cd, k);
    }
  }

  /** The round keys come from the key. */
  lemma KeyAt(i: nat)
    requires i < 16
    ensures Subkey(ToBits(KEY), i) == ToBits(KEYS[i])
  {
    KeyBitsAt(i);
    TurnAt(i);
    TheRegister();
    hide KeyBits, Select, RotateHalves, ToBits, TotalShift;
    KeyIsSelected(ToBits(REGISTER), TURNS[i], ToBits(KEYS[i]));
  }

  lemma EarlyBoxes(i: nat, l: Bits, r: Bits, k: Bits, n: Bits) returns (v: seq<nat>)
    requires i < 8 && l == ToBits(HALVES[i]) && r == ToBits(HALVES[i + 1]) && k == ToBits(KEYS[i]) && n == ToBits(HALVES[i + 2])
    ensures BoxesAgree(l, r, k, n, v)
  {
    hide BoxesAgree, ToBits, IsKey, IsHalf;
    HalfIs(HALVES[i]);
    HalfIs(HALVES[i + 1]);
    KeyIs(KEYS[i]);
    HalfIs(HALVES[i + 2]);
    if i == 0 {
      v := Round1(l, r, k, n);
    } else if i == 1 {
      v := Round2(l, r, k, n);
    } else if i == 2 {
      v := Round3(l, r, k, n);
    } else if i == 3 {
      v := Round4(l, r, k, n);
    } else if i == 4 {
      v := Round5(l, r, k, n);
    } else if i == 5 {
      v := Round6(l, r, k, n);
    } else if i == 6 {
      v := Round7(l, r, k, n);
    } else {
      v := Round8(l, r, k, n);
    }
  }

  lemma LateBoxes(i: nat, l: Bits, r: Bits, k: Bits, n: Bits) returns (v: seq<nat>)
    requires 8 <= i < 16 && l == ToBits(HALVES[i]) && r == ToBits(HALVES[i + 1]) && k == ToBits(KEYS[i]) && n == ToBits(HALVES[i + 2])
    ensures BoxesAgree(l, r, k, n, v)
  {
    hide BoxesAgree, ToBits, IsKey, IsHalf;
    HalfIs(HALVES[i]);
    HalfIs(HALVES[i + 1]);
    KeyIs(KEYS[i]);
    HalfIs(HALVES[i + 2]);
    if i == 8 {
      v := Round9(l, r, k, n);
    } else if i == 9 {
      v := Round10(l, r, k, n);
    } else if i == 10 {
      v := Round11(l, r, k, n);
    } else if i == 11 {
      v := Round12(l, r, k, n);
    } else if i == 12 {
      v := Round13(l, r, k, n);
    } else if i == 13 {
      v := Round14(l, r, k, n);
    } else if i == 14 {
      v := Round15(l, r, k, n);
    } else {
      v := Round16(l, r, k, n);
    }
  }

  /** Every round turns its halves into the next ones. */
  lemma RoundAt(i: nat)
    requires i < 16
    ensures XorBits(ToBits(HALVES[i]), CipherFunction(ToBits(HALVES[i + 1]), ToBits(KEYS[i]))) == ToBits(HALVES[i + 2])
  {
    hide BoxesAgree, XorBits, CipherFunction, ToBits;
    var l, r, k, n := ToBits(HALVES[i]), ToBits(HALVES[i + 1]), ToBits(KEYS[i]), ToBits(HALVES[i + 2]);
    var v: seq<nat>;
    if i < 8 {
      v := EarlyBoxes(i, l, r, k, n);
    } else {
      v := LateBoxes(i, l, r, k, n);
    }
    RoundIs(l, r, k, n, v);
  }

  lemma {:induction false} RoundsFrom(i: nat)
    requires i <= 16
    ensures Rounds(CipherFunction, Subkeys(ToBits(KEY))[i..], ToBits(HALVES[i]), ToBits(HALVES[i + 1])) == (ToBits(HALVES[16]), ToBits(HALVES[17]))
    decreases 16 - i
  {
    hide XorBits, CipherFunction, ToBits, Subkey, HALVES, KEYS;
    if i < 16 {
      var keys := Subkeys(ToBits(KEY));
      assert keys[i..][1..] == keys[i + 1..] && keys[i..][0] == Subkey(ToBits(KEY), i);
      KeyAt(i);
      RoundAt(i);
      RoundsFrom(i + 1);
    }
  }

  lemma BlockIsEnciphered(keys: seq<Bits>, block: Bits, l: Bits, r: Bits, l': Bits, r': Bits)
    requires Select(INITPERM, block) == l + r && |l| == 32
    requires Rounds(CipherFunction, keys, l, r) == (l', r')
    ensures DesWith(keys, block) == Select(OUTPERM, r' + l')
  {
    hide Select, Rounds, INITPERM, OUTPERM, CipherFunction;
    assert (l + r)[..32] == l && (l + r)[32..] == r;
  }

  /** The known answer of DES. */
  lemma KnownAnswer()
    ensures EncipherBytes(KEY, BLOCK) == ANSWER
  {
    hide Rounds, Subkeys, Select, ToBits, ToBytes, KEYS, CipherFunction, KEY, BLOCK, ANSWER, DesWith, INITPERM, OUTPERM;
    TheStart();
    RoundsFrom(0);
    TheEnd();
    BytesOfBits(ANSWER);
    var keys := Subkeys(ToBits(KEY));
    assert keys[0..] == keys;
    BlockIsEnciphered(keys, ToBits(BLOCK), ToBits(HALVES[0]), ToBits(HALVES[1]), ToBits(HALVES[16]), ToBits(HALVES[17]));
  }
}
