/**
 The bit-per-byte cipher of src/auth/password-encrypt.js and the password token and substitute
 built on it, with the arrays, tables and in-place rotations of the source.
 */
module PasswordEncrypt {
  import opened Bytes
  import opened DesSpec
  import opened DesTheorems

  /** The arrays of the cipher hold one bit per element, as the characters '0' and '1'. */
  const ZERO: int := 0x30
  const ONE: int := 0x31

  ghost predicate IsChars(s: seq<int>) {
    forall i | 0 <= i < |s| :: s[i] == ZERO || s[i] == ONE
  }

  ghost function View(s: seq<int>): (r: Bits)
    ensures |r| == |s|
  {
    seq(|s|, i requires 0 <= i < |s| => s[i] == ONE)
  }

  // ---- Bytes and bits ----

  /** The bits of a byte string, most significant first. */
  ghost function ToBits(b: seq<Byte>): (r: Bits)
  {
    seq(8 * |b|, p requires 0 <= p < 8 * |b| => TestBit(b[p / 8], 7 - p % 8))
  }

  ghost function FromBits(s: Bits): (v: nat)
    ensures v < Pow2(|s|)
  {
    if s == [] then 0 else 2 * FromBits(s[..|s| - 1]) + (if s[|s| - 1] then 1 else 0)
  }

  lemma {:induction false} FromBitsTest(s: Bits, k: nat)
    requires k < |s|
    ensures TestBit(FromBits(s), k) == s[|s| - 1 - k]
  {
    assert FromBits(s) / 2 == FromBits(s[..|s| - 1]);
    if k > 0 {
      FromBitsTest(s[..|s| - 1], k - 1);
    }
  }

  /** The byte whose bits are the eight at byte position `i`. */
  ghost function ByteAt(s: Bits, i: nat): (v: Byte)
    requires 8 * i + 8 <= |s|
    ensures forall k | 0 <= k < 8 :: TestBit(v, k) == s[8 * i + 7 - k]
  {
    var eight := s[8 * i..8 * i + 8];
    assert forall k | 0 <= k < 8 :: TestBit(FromBits(eight), k) == s[8 * i + 7 - k] by {
      forall k | 0 <= k < 8 ensures TestBit(FromBits(eight), k) == s[8 * i + 7 - k] {
        FromBitsTest(eight, k);
      }
    }
    assert Pow2(8) == 256;
    FromBits(eight)
  }

  ghost function ToBytes(s: Bits): (r: seq<Byte>)
    requires |s| % 8 == 0
  {
    seq(|s| / 8, i requires 0 <= i < |s| / 8 => ByteAt(s, i))
  }

  lemma SameBits(a: Byte, b: Byte)
    requires forall k | 0 <= k < 8 :: TestBit(a, k) == TestBit(b, k)
    ensures a == b
  {
    assert Pow2(8) == 256;
    BitsDetermine(a, b, 8);
  }

  lemma BitsOfBytes(s: Bits)
    requires |s| % 8 == 0
    ensures ToBits(ToBytes(s)) == s
  {
    forall p | 0 <= p < |s| ensures ToBits(ToBytes(s))[p] == s[p] {
      assert p == 8 * (p / 8) + p % 8;
    }
  }

  lemma BytesOfBits(b: seq<Byte>)
    ensures ToBytes(ToBits(b)) == b
  {
    forall i | 0 <= i < |b| ensures ToBytes(ToBits(b))[i] == b[i] {
      forall k | 0 <= k < 8 ensures TestBit(ToBytes(ToBits(b))[i], k) == TestBit(b[i], k) {
        BitOfByte(b, i, k);
      }
      SameBits(ToBytes(ToBits(b))[i], b[i]);
    }
  }

  lemma BitOfByte(b: seq<Byte>, i: nat, k: nat)
    requires i < |b| && k < 8
    ensures TestBit(ToBytes(ToBits(b))[i], k) == TestBit(b[i], k)
  {
    assert ToBits(b)[8 * i + 7 - k] == TestBit(b[i], k);
  }

  // ---- The cipher on byte blocks ----

  /** Enciphering an eight-byte block under an eight-byte key. */
  ghost function EncipherBytes(key: seq<Byte>, block: seq<Byte>): (r: seq<Byte>)
    requires |key| == |block| == 8
    ensures |r| == 8
  {
    ToBytes(Encipher(ToBits(key), ToBits(block)))
  }

  ghost function DecipherBytes(key: seq<Byte>, block: seq<Byte>): (r: seq<Byte>)
    requires |key| == |block| == 8
    ensures |r| == 8
  {
    ToBytes(Decipher(ToBits(key), ToBits(block)))
  }

  /** For every key, enciphering is a bijection on blocks, with deciphering as its inverse. */
  lemma EncipherIsBijection(key: seq<Byte>, block: seq<Byte>)
    requires |key| == |block| == 8
    ensures DecipherBytes(key, EncipherBytes(key, block)) == block
    ensures EncipherBytes(key, DecipherBytes(key, block)) == block
  {
    var k, b := ToBits(key), ToBits(block);
    DecipherInverts(k, b);
    BitsOfBytes(Encipher(k, b));
    BitsOfBytes(Decipher(k, b));
    BytesOfBits(block);
  }

  // ---- Expanding and compressing ----

  function CharOf(bit: bool): (c: int) {
    if bit then ONE else ZERO
  }

  /** The eight characters of a byte, most significant bit first. */
  ghost function ByteChars(b: Byte): (r: seq<int>)
  {
    seq(8, j requires 0 <= j < 8 => CharOf(TestBit(b, 7 - j)))
  }

  method ExpandByte(b: Byte, e: array<int>, at: nat)
    requires at + 8 < e.Length
    modifies e
    ensures e[at + 1..at + 9] == ByteChars(b)
    ensures forall j | 0 <= j < e.Length && !(at < j <= at + 8) :: e[j] == old(e[j])
  {
    hide CharOf, TestBit;
    e[at + 1] := CharOf(TestBit(b, 7));
    e[at + 2] := CharOf(TestBit(b, 6));
    e[at + 3] := CharOf(TestBit(b, 5));
    e[at + 4] := CharOf(TestBit(b, 4));
    e[at + 5] := CharOf(TestBit(b, 3));
    e[at + 6] := CharOf(TestBit(b, 2));
    e[at + 7] := CharOf(TestBit(b, 1));
    e[at + 8] := CharOf(TestBit(b, 0));
  }

  lemma ExpandedView(data: seq<Byte>, e: seq<int>)
    requires |data| == 8 && |e| == 65
    requires forall k | 0 <= k < 8 :: e[8 * k + 1..8 * k + 9] == ByteChars(data[k])
    ensures IsChars(e[1..]) && View(e[1..]) == ToBits(data)
  {
    forall p | 0 <= p < 64 ensures e[1..][p] == CharOf(TestBit(data[p / 8], 7 - p % 8)) {
      var k, j := p / 8, p % 8;
      assert e[1..][p] == e[8 * k + 1..8 * k + 9][j];
    }
  }

  method Expand(data: array<Byte>) returns (e: array<int>)
    requires data.Length >= 8
    ensures fresh(e) && e.Length == 65 && IsChars(e[1..])
    ensures View(e[1..]) == ToBits(data[..8])
  {
    e := new int[65];
    for i := 0 to 8
      invariant forall k | 0 <= k < i :: e[8 * k + 1..8 * k + 9] == ByteChars(data[k])
    {
      label before:
      ExpandByte(data[i], e, 8 * i);
      forall k | 0 <= k < i ensures e[8 * k + 1..8 * k + 9] == ByteChars(data[k]) {
        assert old@before(e[8 * k + 1..8 * k + 9]) == e[8 * k + 1..8 * k + 9];
      }
    }
    ExpandedView(data[..8], e[..]);
    assert e[..][1..] == e[1..];
  }

  /** `b |= 1 << k` when the character at hand is '1'. */
  function OrIf(b: Byte, k: nat, c: int): (r: Byte)
    requires k < 8
    ensures forall i | 0 <= i < 8 :: TestBit(r, i) == ((i == k && c == ONE) || TestBit(b, i))
  {
    assert forall i | 0 <= i < 8 :: TestBit(SetBit(b, k), i) == (i == k || TestBit(b, i)) by {
      forall i | 0 <= i < 8 ensures TestBit(SetBit(b, k), i) == (i == k || TestBit(b, i)) {
        SetBitSetsOne(b, k, i);
      }
    }
    assert Pow2(8) == 256;
    SetBitBounded(b, k, 8);
    if c == ONE then SetBit(b, k) else b
  }

  method CompressByte(e: array<int>, at: nat) returns (b: Byte)
    requires at + 8 < e.Length
    ensures forall k | 0 <= k < 8 :: TestBit(b, k) == (e[at + 8 - k] == ONE)
  {
    forall k | 0 <= k < 8 ensures !TestBit(0, k) {
      ZeroHasNoBits(k);
    }
    b := OrIf(0, 7, e[at + 1]);
    b := OrIf(b, 6, e[at + 2]);
    b := OrIf(b, 5, e[at + 3]);
    b := OrIf(b, 4, e[at + 4]);
    b := OrIf(b, 3, e[at + 5]);
    b := OrIf(b, 2, e[at + 6]);
    b := OrIf(b, 1, e[at + 7]);
    b := OrIf(b, 0, e[at + 8]);
  }

  method Compress(e: array<int>) returns (result: array<Byte>)
    requires e.Length == 65
    ensures fresh(result) && result.Length == 8
    ensures result[..] == ToBytes(View(e[1..]))
  {
    result := new Byte[8](_ => 0);
    ghost var bits := View(e[1..]);
    for i := 0 to 8
      invariant forall j | 0 <= j < i :: result[j] == ByteAt(bits, j)
    {
      result[i] := CompressByte(e, 8 * i);
      SameBits(result[i], ByteAt(bits, i));
    }
  }

  // ---- Key schedule ----

  lemma RotatedRegister(was: seq<int>, now: seq<int>, k: nat)
    requires |was| == |now| >= 57 && k <= 28
    requires forall i | 1 <= i < 29 :: now[i] == was[if i + k < 29 then i + k else i + k - 28]
    requires forall i | 29 <= i < 57 :: now[i] == was[if i + k < 57 then i + k else i + k - 28]
    ensures now[1..57] == RotateHalves(was[1..57], k)
  {
    hide RotateHalves;
    forall i: nat | i < 56 ensures now[1..57][i] == RotateHalves(was[1..57], k)[i] {
      RotatedAt(was[1..57], k, i);
    }
  }

  /** Rotates both halves of the key register left by one, in place. */
  method Lshift1(cn: array<int>)
    requires cn.Length >= 57
    modifies cn
    ensures cn[1..57] == RotateHalves(old(cn[1..57]), 1)
  {
    hide RotateHalves;
    ghost var was := cn[..];
    var hold0 := cn[1];
    var hold1 := cn[29];
    forall i | 1 <= i < 28 {
      cn[i] := cn[i + 1];
    }
    forall i | 29 <= i < 56 {
      cn[i] := cn[i + 1];
    }
    cn[28] := hold0;
    cn[56] := hold1;
    RotatedRegister(was, cn[..], 1);
  }

  /** Rotates both halves of the key register left by two, in place. */
  method Lshift2(cn: array<int>)
    requires cn.Length >= 57
    modifies cn
    ensures cn[1..57] == RotateHalves(old(cn[1..57]), 2)
  {
    hide RotateHalves;
    ghost var was := cn[..];
    var hold0 := cn[1];
    var hold1 := cn[2];
    var hold2 := cn[29];
    var hold3 := cn[30];
    forall i | 1 <= i < 27 {
      cn[i] := cn[i + 2];
    }
    forall i | 29 <= i < 55 {
      cn[i] := cn[i + 2];
    }
    cn[27] := hold0;
    cn[28] := hold1;
    cn[55] := hold2;
    cn[56] := hold3;
    RotatedRegister(was, cn[..], 2);
  }

  /** Rotations compose; in particular shifting by two is shifting by one twice. */
  lemma RotationsCompose<T>(cd: seq<T>, j: nat, k: nat)
    requires |cd| == 56 && j + k <= 28
    ensures RotateHalves(RotateHalves(cd, j), k) == RotateHalves(cd, j + k)
  {
    hide RotateLeft;
    var c, d := cd[..28], cd[28..];
    RotateLeftCompose(c, j, k);
    RotateLeftCompose(d, j, k);
    assert RotateHalves(cd, j)[..28] == RotateLeft(c, j) && RotateHalves(cd, j)[28..] == RotateLeft(d, j);
  }

  lemma RotateLeftCompose<T>(c: seq<T>, j: nat, k: nat)
    requires j + k <= |c|
    ensures RotateLeft(RotateLeft(c, j), k) == RotateLeft(c, j + k)
  {
    var r := c[j..] + c[..j];
    assert r[k..] == c[j + k..] + c[..j];
    assert r[..k] == c[j..j + k];
    assert c[..j] + c[j..j + k] == c[..j + k];
    assert c[j + k..] + (c[..j] + c[j..j + k]) == (c[j + k..] + c[..j]) + c[j..j + k];
  }

  lemma RotatedAt<T>(cd: seq<T>, k: nat, i: nat)
    requires |cd| == 56 && k <= 28 && i < 56
    ensures |RotateHalves(cd, k)| == 56
    ensures RotateHalves(cd, k)[i] == cd[if i < 28 then (if i + k < 28 then i + k else i + k - 28) else (if i + k < 56 then i + k else i + k - 28)]
  {}

  /** After the sixteenth round the register is back at its initial value. */
  lemma FullTurn<T>(cd: seq<T>)
    requires |cd| == 56
    ensures TotalShift(16) <= 28 && RotateHalves(cd, TotalShift(16)) == cd
  {
    TotalShiftBounded(16);
    assert cd == cd[..28] + cd[28..];
  }

  lemma ViewOfSelection(t: seq<nat>, s: seq<int>, r: seq<int>)
    requires Table(t, |t|, |s|) && IsChars(s) && |r| == |t|
    requires forall n | 0 <= n < |t| :: r[n] == s[t[n] - 1]
    ensures IsChars(r) && View(r) == Select(t, View(s))
  {}

  lemma RotationKeepsView(cd: seq<int>, k: nat)
    requires |cd| == 56 && k <= 28 && IsChars(cd)
    ensures IsChars(RotateHalves(cd, k)) && View(RotateHalves(cd, k)) == RotateHalves(View(cd), k)
  {
    hide RotateHalves;
    forall i: nat | i < 56
      ensures RotateHalves(cd, k)[i] in cd && View(RotateHalves(cd, k))[i] == RotateHalves(View(cd), k)[i]
    {
      RotatedAt(cd, k, i);
      RotatedAt(View(cd), k, i);
    }
  }

  /** Copies the characters a table selects into a new array; both arrays count from 1. */
  method Pick(t: seq<nat>, from: array<int>) returns (to: array<int>)
    requires from.Length > 0 && Table(t, |t|, from.Length - 1)
    ensures fresh(to) && to.Length == |t| + 1
    ensures forall n | 0 <= n < |t| :: to[1..][n] == from[1..][t[n] - 1]
  {
    to := new int[|t| + 1];
    for n := 1 to |t| + 1
      invariant forall m | 1 <= m < n :: to[m] == from[t[m - 1]]
    {
      to[n] := from[t[n - 1]];
    }
  }

  /** The 48 bits `PC2` picks from the register are the round's subkey. */
  lemma PickedSubkey(key: Bits, cn: seq<int>, k: seq<int>, r: nat)
    requires |key| == 64 && r < 16 && |cn| == 56 && |k| == 48
    requires TotalShift(r + 1) <= 28 && IsChars(cn) && View(cn) == RotateHalves(Select(PC1, key), TotalShift(r + 1))
    requires forall n | 0 <= n < 48 :: k[n] == cn[PC2[n] - 1]
    ensures IsChars(k) && View(k) == Subkey(key, r)
  {
    ViewOfSelection(PC2, cn, k);
  }

  method GenerateSubkeys(e2: array<int>) returns (keys: seq<array<int>>)
    requires e2.Length == 65 && IsChars(e2[1..])
    ensures |keys| == 16
    ensures forall r | 0 <= r < 16 :: fresh(keys[r]) && keys[r].Length == 49
    ensures forall r | 0 <= r < 16 :: IsChars(keys[r][1..]) && View(keys[r][1..]) == Subkey(View(e2[1..]), r)
  {
    hide Subkey, View, IsChars, Select, RotateHalves;
    ghost var key := View(e2[1..]);
    var cn := Pick(PC1, e2);
    ghost var start := cn[1..57];
    ViewOfSelection(PC1, e2[1..], cn[1..]);
    assert cn[1..] == start;
    NoRotation(start);
    keys := [];
    for round := 0 to 16
      invariant cn.Length == 57 && fresh(cn) && |keys| == round
      invariant TotalShift(round) <= 28 && cn[1..57] == RotateHalves(start, TotalShift(round))
      invariant forall r | 0 <= r < round :: fresh(keys[r]) && keys[r] != cn && keys[r].Length == 49
      invariant forall r | 0 <= r < round :: IsChars(keys[r][1..]) && View(keys[r][1..]) == Subkey(key, r)
    {
      RotateRegister(cn, start, round);
      var k := PickSubkey(cn, key, start, round);
      keys := keys + [k];
    }
  }

  lemma NoRotation(cd: seq<int>)
    requires |cd| == 56
    ensures RotateHalves(cd, TotalShift(0)) == cd
  {
    assert cd[..28] + cd[28..] == cd;
  }

  method PickSubkey(cn: array<int>, ghost key: Bits, ghost start: seq<int>, round: nat) returns (k: array<int>)
    requires round < 16 && cn.Length == 57 && |key| == 64 && |start| == 56 && IsChars(start) && View(start) == Select(PC1, key)
    requires TotalShift(round + 1) <= 28 && cn[1..57] == RotateHalves(start, TotalShift(round + 1))
    ensures fresh(k) && k.Length == 49 && IsChars(k[1..]) && View(k[1..]) == Subkey(key, round)
  {
    hide Subkey, View, IsChars, Select, RotateHalves, TotalShift;
    k := Pick(PC2, cn);
    RotationKeepsView(start, TotalShift(round + 1));
    assert cn[1..] == cn[1..57];
    PickedSubkey(key, cn[1..57], k[1..], round);
  }

  /** One step of the key schedule: from the register of round `round - 1` to that of `round`. */
  method RotateRegister(cn: array<int>, ghost start: seq<int>, round: nat)
    requires round < 16 && cn.Length == 57 && |start| == 56
    requires TotalShift(round) <= 28 && cn[1..57] == RotateHalves(start, TotalShift(round))
    modifies cn
    ensures TotalShift(round + 1) <= 28 && cn[1..57] == RotateHalves(start, TotalShift(round + 1))
  {
    TotalShiftBounded(round + 1);
    RotationsCompose(start, TotalShift(round), KEY_SHIFTS[round]);
    ShiftsAreOneOrTwo(round);
    if KEY_SHIFTS[round] == 1 {
      Lshift1(cn);
    } else {
      Lshift2(cn);
    }
  }

  lemma ShiftsAreOneOrTwo(round: nat)
    requires round < 16
    ensures |KEY_SHIFTS| == 16 && (KEY_SHIFTS[round] == 1 || KEY_SHIFTS[round] == 2)
  {}

  // ---- Rounds ----

  lemma MixedView(a: seq<int>, b: seq<int>, c: seq<int>)
    requires |a| == |b| == |c| && IsChars(a) && IsChars(b)
    requires forall i | 0 <= i < |c| :: c[i] == CharOf(a[i] != b[i])
    ensures IsChars(c) && View(c) == XorBits(View(a), View(b))
  {}

  /** The expanded right half, mixed with the subkey. */
  method Mix(key: array<int>, rn: array<int>) returns (temp2: array<int>)
    requires key.Length == 49 && rn.Length == 33 && IsChars(key[1..]) && IsChars(rn[1..])
    ensures fresh(temp2) && temp2.Length == 49 && IsChars(temp2[1..])
    ensures View(temp2[1..]) == XorBits(Select(EPERM, View(rn[1..])), View(key[1..]))
  {
    hide View, Select, IsChars, XorBits;
    var temp1 := Pick(EPERM, rn);
    ghost var a := temp1[1..];
    ViewOfSelection(EPERM, rn[1..], a);
    temp2 := MixBits(temp1, key);
    MixedView(a, key[1..], temp2[1..]);
  }

  /** The exclusive or of two arrays of characters, counted from 1. */
  method MixBits(temp1: array<int>, key: array<int>) returns (temp2: array<int>)
    requires temp1.Length == key.Length == 49
    ensures fresh(temp2) && temp2.Length == 49
    ensures forall i | 0 <= i < 48 :: temp2[1..][i] == CharOf(temp1[1..][i] != key[1..][i])
  {
    temp2 := new int[49];
    for n := 1 to 49
      invariant forall m | 1 <= m < n :: temp2[m] == CharOf(temp1[m] != key[m])
    {
      temp2[n] := if temp1[n] != key[n] then ONE else ZERO;
    }
  }

  /** The six bits of an S-box input, as the source assembles them. */
  function BoxIndex(b1: int, b2: int, b3: int, b4: int, b5: int, b6: int): (v: nat)
    ensures v < 64
  {
    (if b1 == ONE then 0x20 else 0) + (if b6 == ONE then 0x10 else 0) +
    (if b2 == ONE then 0x08 else 0) + (if b3 == ONE then 0x04 else 0) +
    (if b4 == ONE then 0x02 else 0) + (if b5 == ONE then 0x01 else 0)
  }

  lemma BoxIndexIsInput(c: seq<int>, box: nat)
    requires |c| == 48 && box < 8
    ensures var o := 6 * box;
            BoxIndex(c[o], c[o + 1], c[o + 2], c[o + 3], c[o + 4], c[o + 5]) == SBoxInput(View(c), box)
  {}

  /** Looks every six-bit group up in its S-box and spreads the entries into 32 characters. */
  method SubstituteBits(temp2: array<int>) returns (temp3: array<int>)
    requires temp2.Length == 49
    ensures fresh(temp3) && temp3.Length == 33 && IsChars(temp3[1..])
    ensures View(temp3[1..]) == Substitute(View(temp2[1..]))
  {
    hide SBoxEntry, SBoxInput, BoxIndex;
    ghost var x := View(temp2[1..]);
    var so := new nat[9];
    for box := 1 to 9
      invariant forall b | 0 <= b < box - 1 :: so[b + 1] == SBoxEntry(b, SBoxInput(x, b))
    {
      var o := 6 * (box - 1);
      BoxIndexIsInput(temp2[1..], box - 1);
      var si := BoxIndex(temp2[o + 1], temp2[o + 2], temp2[o + 3], temp2[o + 4], temp2[o + 5], temp2[o + 6]);
      so[box] := SBoxEntry(box - 1, si);
    }
    temp3 := SpreadEntries(so, x);
  }

  /** The four characters of an S-box entry. */
  ghost function EntryChars(v: nat): (r: seq<int>)
  {
    seq(4, j requires 0 <= j < 4 => CharOf(TestBit(v, 3 - j)))
  }

  method SpreadEntry(v: nat, temp3: array<int>, offset: nat)
    requires offset + 3 < temp3.Length
    modifies temp3
    ensures temp3[offset..offset + 4] == EntryChars(v)
    ensures forall j | 0 <= j < temp3.Length && !(offset <= j < offset + 4) :: temp3[j] == old(temp3[j])
  {
    temp3[offset] := CharOf(TestBit(v, 3));
    temp3[offset + 1] := CharOf(TestBit(v, 2));
    temp3[offset + 2] := CharOf(TestBit(v, 1));
    temp3[offset + 3] := CharOf(TestBit(v, 0));
  }

  method SpreadEntries(so: array<nat>, ghost x: Bits) returns (temp3: array<int>)
    requires so.Length == 9
    requires forall b | 0 <= b < 8 :: so[b + 1] == SBoxEntry(b, SBoxInput(x, b))
    ensures fresh(temp3) && temp3.Length == 33 && IsChars(temp3[1..])
    ensures View(temp3[1..]) == Substitute(x)
  {
    temp3 := new int[33];
    for box := 1 to 9
      invariant forall b | 0 <= b < box - 1 :: temp3[4 * b + 1..4 * b + 5] == EntryChars(SBoxEntry(b, SBoxInput(x, b)))
    {
      label before:
      SpreadEntry(so[box], temp3, (box - 1) * 4 + 1);
      forall b | 0 <= b < box - 1 ensures temp3[4 * b + 1..4 * b + 5] == EntryChars(SBoxEntry(b, SBoxInput(x, b))) {
        assert old@before(temp3[4 * b + 1..4 * b + 5]) == temp3[4 * b + 1..4 * b + 5];
      }
    }
    SpreadView(x, temp3[..]);
    assert temp3[..][1..] == temp3[1..];
  }

  lemma SpreadView(x: Bits, t: seq<int>)
    requires |t| == 33
    requires forall b | 0 <= b < 8 :: t[4 * b + 1..4 * b + 5] == EntryChars(SBoxEntry(b, SBoxInput(x, b)))
    ensures IsChars(t[1..]) && View(t[1..]) == Substitute(x)
  {
    hide SBoxEntry, SBoxInput;
    forall i: nat | i < 32 ensures t[1..][i] == CharOf(Substitute(x)[i]) {
      SpreadChar(x, t, i / 4, i % 4);
    }
  }

  lemma SpreadChar(x: Bits, t: seq<int>, b: nat, r: nat)
    requires |t| == 33 && b < 8 && r < 4
    requires t[4 * b + 1..4 * b + 5] == EntryChars(SBoxEntry(b, SBoxInput(x, b)))
    ensures t[4 * b + r + 1] == CharOf(Substitute(x)[4 * b + r])
  {
    hide SBoxEntry, SBoxInput;
    assert t[4 * b + r + 1] == t[4 * b + 1..4 * b + 5][r];
    assert (4 * b + r) / 4 == b && (4 * b + r) % 4 == r;
  }

  /** One round: `rn` receives the left half mixed with the cipher function, `ln` the old right half. */
  method Cipher(key: array<int>, ln: array<int>, rn: array<int>)
    requires key.Length == 49 && ln.Length == rn.Length == 33 && ln != rn && key != ln && key != rn
    requires IsChars(key[1..]) && IsChars(ln[1..]) && IsChars(rn[1..])
    modifies ln, rn
    ensures IsChars(ln[1..]) && IsChars(rn[1..])
    ensures View(ln[1..]) == old(View(rn[1..]))
    ensures View(rn[1..]) == XorBits(old(View(ln[1..])), CipherFunction(old(View(rn[1..])), View(key[1..])))
  {
    var temp2 := Mix(key, rn);
    var temp3 := SubstituteBits(temp2);
    var fkn := Pick(PPERM, temp3);
    ViewOfSelection(PPERM, temp3[1..], fkn[1..]);
    FeistelStep(ln, rn, fkn);
  }

  method FeistelStep(ln: array<int>, rn: array<int>, fkn: array<int>)
    requires ln.Length == rn.Length == fkn.Length == 33 && ln != rn && fkn != ln && fkn != rn
    requires IsChars(fkn[1..]) && IsChars(ln[1..]) && IsChars(rn[1..])
    modifies ln, rn
    ensures IsChars(ln[1..]) && IsChars(rn[1..])
    ensures View(ln[1..]) == old(View(rn[1..]))
    ensures View(rn[1..]) == XorBits(old(View(ln[1..])), View(fkn[1..]))
  {
    ghost var l, r, f := ln[1..], rn[1..], fkn[1..];
    var oldRn := new int[33](i requires 0 <= i < 33 reads rn => rn[i]);
    for n := 1 to 33
      invariant forall m | 1 <= m < n :: rn[m] == CharOf(ln[m] != fkn[m])
      invariant ln[1..] == l && oldRn[1..] == r && fkn[1..] == f
    {
      rn[n] := if ln[n] == fkn[n] then ZERO else ONE;
    }
    MixedView(l, f, rn[1..]);
    forall n | 0 <= n < 33 {
      ln[n] := oldRn[n];
    }
    assert ln[1..] == r;
  }

  /** The character arrays after the rounds so far hold the halves the specification computes. */
  ghost predicate HoldsHalves(ln: seq<int>, rn: seq<int>, lr: (Bits, Bits)) {
    IsChars(ln) && IsChars(rn) && View(ln) == lr.0 && View(rn) == lr.1
  }

  /** All rounds, in place. */
  method RunRounds(keys: seq<array<int>>, ln: array<int>, rn: array<int>, ghost subkeys: seq<Bits>)
    requires |keys| == |subkeys| && ln.Length == rn.Length == 33 && ln != rn
    requires forall r | 0 <= r < |keys| :: keys[r].Length == 49 && keys[r] != ln && keys[r] != rn
    requires forall r | 0 <= r < |keys| :: IsChars(keys[r][1..]) && View(keys[r][1..]) == subkeys[r]
    requires IsChars(ln[1..]) && IsChars(rn[1..])
    modifies ln, rn
    ensures HoldsHalves(ln[1..], rn[1..], Rounds(CipherFunction, subkeys, old(View(ln[1..])), old(View(rn[1..]))))
  {
    ghost var l, r := View(ln[1..]), View(rn[1..]);
    for round := 0 to |keys|
      invariant HoldsHalves(ln[1..], rn[1..], Rounds(CipherFunction, subkeys[..round], l, r))
      invariant forall r | 0 <= r < |keys| :: IsChars(keys[r][1..]) && View(keys[r][1..]) == subkeys[r]
    {
      RoundsAppend(CipherFunction, subkeys[..round], subkeys[round], l, r);
      assert subkeys[..round + 1] == subkeys[..round] + [subkeys[round]];
      label before:
      Cipher(keys[round], ln, rn);
      forall r | 0 <= r < |keys| ensures IsChars(keys[r][1..]) && View(keys[r][1..]) == subkeys[r] {
        assert old@before(keys[r][1..]) == keys[r][1..];
      }
    }
    assert subkeys[..|keys|] == subkeys;
  }

  /** The DES of the source: `data` enciphered under `key`; only the first eight bytes of each are read. */
  method EncDes(key: array<Byte>, data: array<Byte>) returns (result: array<Byte>)
    requires key.Length >= 8 && data.Length >= 8
    ensures fresh(result) && result.Length == 8
    ensures result[..] == EncipherBytes(key[..8], data[..8])
  {
    ghost var k, block := ToBits(key[..8]), ToBits(data[..8]);
    var e1 := Expand(data);
    var e2 := Expand(key);
    var keys := GenerateSubkeys(e2);
    var ln := Pick(INITPERM[..32], e1);
    var rn := Pick(INITPERM[32..], e1);
    ViewOfSelection(INITPERM[..32], e1[1..], ln[1..]);
    ViewOfSelection(INITPERM[32..], e1[1..], rn[1..]);
    ghost var start := Select(INITPERM, block);
    assert View(ln[1..]) == start[..32] && View(rn[1..]) == start[32..];
    RunRounds(keys, ln, rn, Subkeys(k));
    result := Finish(ln, rn);
  }

  /** The output permutation of the exchanged halves, packed into bytes. */
  method Finish(ln: array<int>, rn: array<int>) returns (result: array<Byte>)
    requires ln.Length == rn.Length == 33 && IsChars(ln[1..]) && IsChars(rn[1..])
    ensures fresh(result) && result.Length == 8
    ensures result[..] == ToBytes(Select(OUTPERM, View(rn[1..]) + View(ln[1..])))
  {
    ghost var l, r := ln[1..], rn[1..];
    var preout := new int[65];
    for i := 1 to 33
      invariant forall m | 1 <= m < i :: preout[m] == rn[m] && preout[m + 32] == ln[m]
    {
      preout[i] := rn[i];
      preout[i + 32] := ln[i];
    }
    assert preout[1..] == r + l;
    var e3 := Pick(OUTPERM, preout);
    ViewOfSelection(OUTPERM, r + l, e3[1..]);
    assert View(r + l) == View(r) + View(l);
    result := Compress(e3);
  }
}
