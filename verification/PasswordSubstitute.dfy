/**
 The DES-level sign-on of src/auth/password-encrypt.js: byte-array arithmetic, the password token
 and the password substitute, with what the substitute means as a message authentication code.
 */
module PasswordSubstitute {
  import opened Bytes
  import opened DesSpec
  import opened DesTheorems
  import opened PasswordEncrypt

  const BLANK: Byte := 0x40

  // ---- Byte-array arithmetic ----

  function XorBytes(a: seq<Byte>, b: seq<Byte>): (r: seq<Byte>)
    requires |a| == |b|
    ensures |r| == |a|
  {
    seq(|a|, i requires 0 <= i < |a| => Xor(a[i], b[i]))
  }

  lemma XorByteTwice(a: Byte, b: Byte)
    ensures Xor(Xor(a, b), b) == a && Xor(a, b) == Xor(b, a)
  {
    assert Pow2(8) == 256;
    forall k | 0 <= k < 8 ensures TestBit(Xor(Xor(a, b), b), k) == TestBit(a, k) && TestBit(Xor(a, b), k) == TestBit(Xor(b, a), k) {
      XorBelowBits(a, b, 8, k);
      XorBelowBits(b, a, 8, k);
      XorBelowBits(Xor(a, b), b, 8, k);
    }
    SameBits(Xor(Xor(a, b), b), a);
    SameBits(Xor(a, b), Xor(b, a));
  }

  lemma XorBytesTwice(a: seq<Byte>, b: seq<Byte>)
    requires |a| == |b|
    ensures XorBytes(XorBytes(a, b), b) == a && XorBytes(a, b) == XorBytes(b, a)
  {
    forall i | 0 <= i < |a| ensures Xor(Xor(a[i], b[i]), b[i]) == a[i] && Xor(a[i], b[i]) == Xor(b[i], a[i]) {
      XorByteTwice(a[i], b[i]);
    }
  }

  /** `out` may be one of the operands, as it is in the source. */
  method XorArrays(a: array<Byte>, b: array<Byte>, out: array<Byte>)
    requires a.Length >= 8 && b.Length >= 8 && out.Length >= 8
    modifies out
    ensures out[..8] == XorBytes(old(a[..8]), old(b[..8]))
    ensures out[8..] == old(out[8..])
  {
    for i := 0 to 8
      invariant forall j | 0 <= j < i :: out[j] == Xor(old(a[j]), old(b[j]))
      invariant forall j | i <= j < a.Length :: a[j] == old(a[j])
      invariant forall j | i <= j < b.Length :: b[j] == old(b[j])
      invariant forall j | i <= j < out.Length :: out[j] == old(out[j])
    {
      out[i] := Xor(a[i], b[i]);
    }
  }

  lemma {:induction false} BigEndianCons(x: Byte, s: seq<Byte>)
    ensures BigEndian([x] + s) == x * Pow256(|s|) + BigEndian(s)
  {
    var t := [x] + s;
    if s == [] {
      assert t[..0] == [];
    } else {
      var n := |s| - 1;
      assert t[..|t| - 1] == [x] + s[..n];
      BigEndianCons(x, s[..n]);
      assert (x * Pow256(n)) * 256 == x * Pow256(n + 1);
    }
  }

  /** Column-by-column addition from the right: the carry out of the left end, and the sum's bytes. */
  function AddColumns(a: seq<Byte>, b: seq<Byte>): (r: (nat, seq<Byte>))
    requires |a| == |b|
    ensures r.0 <= 1 && |r.1| == |a|
  {
    if a == [] then (0, []) else
      var (carry, sum) := AddColumns(a[1..], b[1..]);
      var temp: nat := a[0] as int + b[0] as int + carry;
      (temp / 256, [temp % 256] + sum)
  }

  lemma CarryColumn(x: nat, y: nat, carry: nat, p: nat, temp: nat)
    requires temp == x + y + carry
    ensures (temp % 256) * p + (temp / 256) * (256 * p) == x * p + y * p + carry * p
  {
    var q, r := temp / 256, temp % 256;
    assert temp == r + 256 * q;
    assert r * p + q * (256 * p) == (r + 256 * q) * p;
    assert (x + y + carry) * p == x * p + y * p + carry * p;
  }

  lemma ColumnSum(x: nat, y: nat, carry: nat, p: nat, temp: nat, low: nat, lowX: nat, lowY: nat)
    requires temp == x + y + carry && low + carry * p == lowX + lowY
    ensures (temp % 256) * p + low + (temp / 256) * (256 * p) == (x * p + lowX) + (y * p + lowY)
  {
    CarryColumn(x, y, carry, p, temp);
  }

  /** Sum and carry make up the sum of the numbers the bytes denote. */
  ghost predicate AddsUp(a: seq<Byte>, b: seq<Byte>, carry: nat, sum: seq<Byte>) {
    |sum| == |a| && BigEndian(sum) + carry * Pow256(|a|) == BigEndian(a) + BigEndian(b)
  }

  lemma AddsUpStep(x: Byte, y: Byte, a: seq<Byte>, b: seq<Byte>, carry: nat, sum: seq<Byte>)
    requires carry <= 1 && |a| == |b| && AddsUp(a, b, carry, sum)
    ensures var temp: nat := x as int + y as int + carry;
            AddsUp([x] + a, [y] + b, temp / 256, [temp % 256] + sum)
  {
    hide BigEndian;
    var temp: nat := x as int + y as int + carry;
    BigEndianCons(x, a);
    BigEndianCons(y, b);
    BigEndianCons(temp % 256, sum);
    ColumnSum(x, y, carry, Pow256(|sum|), temp, BigEndian(sum), BigEndian(a), BigEndian(b));
  }

  /** Adding columns adds the numbers the bytes denote. */
  lemma {:induction false} AddColumnsAdds(a: seq<Byte>, b: seq<Byte>)
    requires |a| == |b|
    ensures AddsUp(a, b, AddColumns(a, b).0, AddColumns(a, b).1)
  {
    if a != [] {
      hide AddsUp;
      AddColumnsAdds(a[1..], b[1..]);
      AddsUpStep(a[0], b[0], a[1..], b[1..], AddColumns(a[1..], b[1..]).0, AddColumns(a[1..], b[1..]).1);
      assert a == [a[0]] + a[1..] && b == [b[0]] + b[1..];
    }
  }

  /** `sum` denotes the sum of `a` and `b` modulo 256 to the number of bytes. */
  ghost predicate IsSum(sum: seq<Byte>, a: seq<Byte>, b: seq<Byte>) {
    |sum| == |a| && BigEndian(sum) == (BigEndian(a) + BigEndian(b)) % Pow256(|a|)
  }

  lemma {:induction false} AddColumnsModulo(a: seq<Byte>, b: seq<Byte>)
    requires |a| == |b|
    ensures IsSum(AddColumns(a, b).1, a, b)
  {
    AddColumnsAdds(a, b);
    CarryIsQuotient(BigEndian(AddColumns(a, b).1), AddColumns(a, b).0, Pow256(|a|), BigEndian(a) + BigEndian(b));
  }

  lemma CarryIsQuotient(low: nat, carry: nat, modulus: nat, total: nat)
    requires low < modulus && carry <= 1 && total == low + carry * modulus
    ensures total % modulus == low
  {
    if carry == 0 {
      assert total == low;
    } else {
      assert total == low + modulus;
    }
  }

  lemma AddNothing()
    ensures AddColumns([], []) == (0, [])
  {}

  lemma AddColumnsStep(x: seq<Byte>, y: seq<Byte>, i: nat, carry: nat, sum: seq<Byte>)
    requires |x| == |y| && i < |x| && AddColumns(x[i + 1..], y[i + 1..]) == (carry, sum)
    ensures var temp := x[i] as int + y[i] as int + carry;
            AddColumns(x[i..], y[i..]) == (temp / 256, [temp % 256] + sum)
  {
    assert x[i..][1..] == x[i + 1..] && y[i..][1..] == y[i + 1..];
  }

  /** Big-endian addition modulo `256^length`, for any length; `result` may alias an operand. */
  method AddArrays(a: array<Byte>, b: array<Byte>, result: array<Byte>, length: nat)
    requires length <= a.Length && length <= b.Length && length <= result.Length
    modifies result
    ensures IsSum(result[..length], old(a[..length]), old(b[..length]))
    ensures result[..length] == AddColumns(old(a[..length]), old(b[..length])).1
    ensures result[length..] == old(result[length..])
  {
    hide IsSum, AddColumns;
    ghost var x, y := a[..length], b[..length];
    var carry := 0;
    var i: int := length - 1;
    assert x[length..] == [] && y[length..] == [] && result[length..length] == [];
    AddNothing();
    while i >= 0
      invariant -1 <= i < length
      invariant (carry, result[i + 1..length]) == AddColumns(x[i + 1..], y[i + 1..])
      invariant a[..i + 1] == x[..i + 1] && b[..i + 1] == y[..i + 1]
      invariant result[length..] == old(result[length..])
    {
      ghost var sum := result[i + 1..length];
      assert a[i] == a[..i + 1][i] && b[i] == b[..i + 1][i];
      AddColumnsStep(x, y, i, carry, sum);
      var temp := a[i] as int + b[i] as int + carry;
      carry := temp / 256;
      result[i] := temp % 256;
      assert result[i..length] == [temp % 256] + sum;
      i := i - 1;
    }
    assert x[0..] == x && y[0..] == y && result[0..length] == result[..length];
    AddColumnsModulo(x, y);
  }

  // ---- The password key ----

  const MASK: seq<Byte> := [0x55, 0x55, 0x55, 0x55, 0x55, 0x55, 0x55, 0x55]

  /** The bytes of a block shifted left by one bit; the bit leaving the first byte is lost. */
  function ShiftLeft(s: seq<Byte>): (r: seq<Byte>)
  {
    seq(|s|, i requires 0 <= i < |s| => (2 * s[i] as int + (if i + 1 < |s| then s[i + 1] as int / 128 else 0)) % 256)
  }

  lemma ShiftColumn(x: nat, low: nat, p: nat)
    requires x < 256 && low <= 1
    ensures (2 * x + low) % 256 * p + x / 128 * (256 * p) == 2 * (x * p) + low * p
  {
    assert (2 * x + low) / 256 == x / 128;
    CarryColumn(x, x, low, p, 2 * x + low);
  }

  /** Shifting the bytes doubles the number they denote, modulo the width. */
  lemma {:induction false} ShiftLeftDoubles(s: seq<Byte>)
    requires s != []
    ensures BigEndian(ShiftLeft(s)) + s[0] as int / 128 * Pow256(|s|) == 2 * BigEndian(s)
  {
    hide BigEndian, Pow256;
    var rest := s[1..];
    if rest == [] {
      NothingShifted();
    } else {
      ShiftLeftDoubles(rest);
    }
    ShiftLeftStep(s, if rest != [] then rest[0] as int / 128 else 0);
    assert s == [s[0]] + rest;
    DoubleFront(s[0], rest, if rest != [] then rest[0] as int / 128 else 0, ShiftLeft(rest));
  }

  lemma NothingShifted()
    ensures ShiftLeft([]) == [] && BigEndian([]) == 0
  {}

  lemma DoubleFront(x: Byte, rest: seq<Byte>, low: nat, shifted: seq<Byte>)
    requires low <= 1 && |shifted| == |rest| && BigEndian(shifted) + low * Pow256(|rest|) == 2 * BigEndian(rest)
    ensures BigEndian([(2 * x as int + low) % 256] + shifted) + x as int / 128 * Pow256(|rest| + 1) == 2 * BigEndian([x] + rest)
  {
    hide BigEndian;
    BigEndianCons(x, rest);
    BigEndianCons((2 * x as int + low) % 256, shifted);
    ShiftSum(x, low, Pow256(|rest|), BigEndian(rest), BigEndian(shifted));
  }

  lemma ShiftSum(x: nat, low: nat, p: nat, rest: nat, shifted: nat)
    requires x < 256 && low <= 1 && shifted + low * p == 2 * rest
    ensures (2 * x + low) % 256 * p + shifted + x / 128 * (256 * p) == 2 * (x * p + rest)
  {
    ShiftColumn(x, low, p);
  }

  lemma ShiftLeftStep(s: seq<Byte>, low: nat)
    requires s != [] && low == if s[1..] != [] then s[1] as int / 128 else 0
    ensures ShiftLeft(s) == [(2 * s[0] as int + low) % 256] + ShiftLeft(s[1..])
  {}

  /** Masks the first eight bytes with 0x55 and shifts them left by one bit, in place. */
  method XorWith0x55AndLshift(bytes: array<Byte>)
    requires bytes.Length >= 8
    modifies bytes
    ensures bytes[..8] == ShiftLeft(XorBytes(old(bytes[..8]), MASK))
    ensures bytes[8..] == old(bytes[8..])
  {
    hide Xor;
    for i := 0 to 8
      invariant forall j | 0 <= j < i :: bytes[j] == Xor(old(bytes[j]), 0x55)
      invariant forall j | i <= j < bytes.Length :: bytes[j] == old(bytes[j])
    {
      bytes[i] := Xor(bytes[i], 0x55);
    }
    assert bytes[..8] == XorBytes(old(bytes[..8]), MASK);
    ShiftInPlace(bytes);
  }

  method ShiftInPlace(bytes: array<Byte>)
    requires bytes.Length >= 8
    modifies bytes
    ensures bytes[..8] == ShiftLeft(old(bytes[..8]))
    ensures bytes[8..] == old(bytes[8..])
  {
    ghost var was := bytes[..8];
    for i := 0 to 7
      invariant forall j | 0 <= j < i :: bytes[j] == ShiftLeft(was)[j]
      invariant forall j | i <= j < 8 :: bytes[j] == was[j]
      invariant bytes[8..] == old(bytes[8..])
    {
      bytes[i] := (2 * bytes[i] as int + bytes[i + 1] as int / 128) % 256;
    }
    bytes[7] := 2 * bytes[7] as int % 256;
  }

  // ---- The token ----

  predicate IsPadding(b: Byte) {
    b == BLANK || b == 0
  }

  /** The length of a blank- or zero-terminated EBCDIC name in a buffer. */
  method EbcdicStrLen(buf: array<Byte>, maxLen: nat) returns (i: nat)
    requires maxLen <= buf.Length
    ensures i == NameLength(buf[..maxLen])
  {
    i := 0;
    while i < maxLen && buf[i] != BLANK && buf[i] != 0
      invariant i <= maxLen && NameLength(buf[..maxLen]) == i + NameLength(buf[..maxLen][i..])
    {
      assert buf[..maxLen][i..][1..] == buf[..maxLen][i + 1..];
      i := i + 1;
    }
  }

  function NameLength(s: seq<Byte>): (n: nat)
    ensures n <= |s|
    ensures forall i | 0 <= i < n :: !IsPadding(s[i])
    ensures n < |s| ==> IsPadding(s[n])
  {
    if s == [] || IsPadding(s[0]) then 0 else 1 + NameLength(s[1..])
  }

  /** The `j`-th pair of bits of a byte, moved to its top: `(b & 0xC0)`, `(b & 0x30) << 2`, and so on. */
  function TopPair(b: Byte, j: nat): (r: Byte)
    requires j < 4
  {
    if j == 0 then b / 64 * 64 else if j == 1 then b / 16 % 4 * 64 else if j == 2 then b / 4 % 4 * 64 else b % 4 * 64
  }

  /** A user ID longer than eight bytes has its last two folded into the high bits of the first eight. */
  function FoldUser(u: seq<Byte>): (r: seq<Byte>)
    requires |u| == 10
    ensures |r| == 8
  {
    if NameLength(u) > 8 then FoldTail(u) else u[..8]
  }

  function FoldTail(u: seq<Byte>): (r: seq<Byte>)
    requires |u| == 10
    ensures |r| == 8
  {
    seq(8, i requires 0 <= i < 8 => if i < 4 then Xor(u[i], TopPair(u[8], i)) else Xor(u[i], TopPair(u[9], i - 4)))
  }

  /** The cipher key made from eight password bytes. */
  function PasswordKey(p: seq<Byte>): (k: seq<Byte>)
    requires |p| == 8
    ensures |k| == 8
  {
    ShiftLeft(XorBytes(p, MASK))
  }

  function Pad(s: seq<Byte>): (r: seq<Byte>)
    requires |s| <= 8
    ensures |r| == 8
  {
    s + seq(8 - |s|, _ => BLANK)
  }

  /**
   The password token: the folded user ID enciphered under the password; a password of nine or ten
   bytes contributes two ciphertexts, exclusive-ored.
   */
  ghost function Token(user: seq<Byte>, password: seq<Byte>): (t: seq<Byte>)
    requires |user| == |password| == 10
  {
    var n := NameLength(password);
    var u := FoldUser(user);
    if n > 8 then
      XorBytes(EncipherBytes(PasswordKey(password[..8]), u), EncipherBytes(PasswordKey(Pad(password[8..n])), u))
    else
      EncipherBytes(PasswordKey(Pad(password[..n])), u)
  }

  method FoldUserId(userID: array<Byte>) returns (work: array<Byte>)
    requires userID.Length == 10
    ensures fresh(work) && work.Length == 10 && work[..8] == FoldUser(userID[..])
  {
    hide FoldTail;
    work := new Byte[10](i requires 0 <= i < 10 reads userID => userID[i]);
    var length := EbcdicStrLen(userID, 10);
    assert userID[..10] == userID[..];
    assert work[..] == userID[..];
    if length > 8 {
      FoldInPlace(work);
    }
  }

  method FoldInPlace(work: array<Byte>)
    requires work.Length == 10
    modifies work
    ensures work[..8] == FoldTail(old(work[..]))
  {
    hide Xor, TopPair;
    forall i | 0 <= i < 8 {
      work[i] := if i < 4 then Xor(work[i], TopPair(work[8], i)) else Xor(work[i], TopPair(work[9], i - 4));
    }
  }

  /** Enciphers the folded user ID under the key made from `password[from..to]`, blank-padded. */
  method TokenPart(password: array<Byte>, from: nat, to: nat, work: array<Byte>) returns (part: array<Byte>)
    requires password.Length == 10 && from <= to <= 10 && to - from <= 8 && work.Length >= 8
    ensures fresh(part) && part.Length == 8
    ensures part[..] == EncipherBytes(PasswordKey(Pad(password[from..to])), work[..8])
  {
    var buffer := new Byte[10](_ => BLANK);
    forall i | 0 <= i < to - from {
      buffer[i] := password[from + i];
    }
    assert buffer[..8] == Pad(password[from..to]);
    XorWith0x55AndLshift(buffer);
    part := EncDes(buffer, work);
  }

  /** The token of a nine- or ten-byte password: two ciphertexts, exclusive-ored. */
  method LongToken(password: array<Byte>, pwdLen: nat, work: array<Byte>) returns (token: array<Byte>)
    requires password.Length == 10 && 8 < pwdLen <= 10 && work.Length >= 8
    ensures fresh(token) && token.Length == 8
    ensures token[..] == XorBytes(EncipherBytes(PasswordKey(password[..8]), work[..8]),
                                  EncipherBytes(PasswordKey(Pad(password[8..pwdLen])), work[..8]))
  {
    var token1 := TokenPart(password, 0, 8, work);
    assert Pad(password[0..8]) == password[..8];
    var token2 := TokenPart(password, 8, pwdLen, work);
    token := new Byte[8](_ => 0);
    assert token1[..8] == token1[..] && token2[..8] == token2[..];
    XorArrays(token1, token2, token);
    assert token[..] == token[..8];
  }

  method GenerateToken(userID: array<Byte>, password: array<Byte>) returns (token: array<Byte>)
    requires userID.Length == password.Length == 10
    ensures fresh(token) && token.Length == 8
    ensures token[..] == Token(userID[..], password[..])
  {
    var workBuffer1 := FoldUserId(userID);
    var pwdLen := EbcdicStrLen(password, 10);
    assert password[..10] == password[..];
    if pwdLen > 8 {
      assert password[..][..8] == password[..8] && password[..][8..pwdLen] == password[8..pwdLen];
      token := LongToken(password, pwdLen, workBuffer1);
    } else {
      assert password[..][..pwdLen] == password[0..pwdLen];
      token := TokenPart(password, 0, pwdLen, workBuffer1);
    }
  }

  // ---- The substitute ----

  ghost function CbcFrom(key: seq<Byte>, state: seq<Byte>, blocks: seq<seq<Byte>>): (mac: seq<Byte>)
    requires |key| == |state| == 8 && forall i | 0 <= i < |blocks| :: |blocks[i]| == 8
    ensures |mac| == 8
    decreases |blocks|
  {
    if blocks == [] then state else CbcFrom(key, EncipherBytes(key, XorBytes(state, blocks[0])), blocks[1..])
  }

  const ZERO_BLOCK: seq<Byte> := [0, 0, 0, 0, 0, 0, 0, 0]

  /** Cipher block chaining from the zero block; the last ciphertext is the code. */
  ghost function CbcMac(key: seq<Byte>, blocks: seq<seq<Byte>>): (mac: seq<Byte>)
    requires |key| == 8 && forall i | 0 <= i < |blocks| :: |blocks[i]| == 8
  {
    CbcFrom(key, ZERO_BLOCK, blocks)
  }

  /** The five blocks the substitute authenticates. */
  function SubstituteBlocks(user: seq<Byte>, seqNo: seq<Byte>, clientSeed: seq<Byte>, serverSeed: seq<Byte>): (b: seq<seq<Byte>>)
    requires |user| == 10 && |seqNo| == |clientSeed| == |serverSeed| == 8
    ensures |b| == 5 && forall i | 0 <= i < 5 :: |b[i]| == 8
  {
    var rdrSeq := AddColumns(seqNo, serverSeed).1;
    [rdrSeq, clientSeed, XorBytes(user[..8], rdrSeq), XorBytes(rdrSeq, Pad(user[8..])), seqNo]
  }

  lemma XorZero(b: seq<Byte>)
    requires |b| == 8
    ensures XorBytes(ZERO_BLOCK, b) == b
  {
    forall i | 0 <= i < 8 ensures Xor(0, b[i]) == b[i] {
      ZeroIsNeutral(b[i]);
    }
  }

  lemma ZeroIsNeutral(b: Byte)
    ensures Xor(0, b) == b
  {
    assert Pow2(8) == 256;
    forall k | 0 <= k < 8 ensures TestBit(Xor(0, b), k) == TestBit(b, k) {
      XorBelowBits(0, b, 8, k);
      ZeroHasNoBits(k);
    }
    SameBits(Xor(0, b), b);
  }

  /** One link of the chain: the previous ciphertext mixed with a block and enciphered. */
  ghost function Link(key: seq<Byte>, state: seq<Byte>, block: seq<Byte>): (c: seq<Byte>)
    requires |key| == |state| == |block| == 8
    ensures |c| == 8
  {
    EncipherBytes(key, XorBytes(state, block))
  }

  method EncipherMixed(token: array<Byte>, a: array<Byte>, b: array<Byte>) returns (c: array<Byte>)
    requires token.Length >= 8 && a.Length >= 8 && b.Length >= 8
    ensures fresh(c) && c.Length == 8
    ensures c[..8] == Link(token[..8], b[..8], a[..8]) == Link(token[..8], a[..8], b[..8])
  {
    var mixed := new Byte[8](_ => 0);
    XorBytesTwice(a[..8], b[..8]);
    XorArrays(a, b, mixed);
    c := EncDes(token, mixed);
    assert c[..8] == c[..];
  }

  lemma CbcCons(key: seq<Byte>, state: seq<Byte>, block: seq<Byte>, rest: seq<seq<Byte>>)
    requires |key| == |state| == |block| == 8 && forall i | 0 <= i < |rest| :: |rest[i]| == 8
    ensures CbcFrom(key, state, [block] + rest) == CbcFrom(key, Link(key, state, block), rest)
  {
    assert ([block] + rest)[1..] == rest;
  }

  lemma CbcOfFive(t: seq<Byte>, b: seq<seq<Byte>>)
    requires |t| == 8 && |b| == 5 && forall i | 0 <= i < 5 :: |b[i]| == 8
    ensures CbcMac(t, b) == Link(t, Link(t, Link(t, Link(t, EncipherBytes(t, b[0]), b[1]), b[2]), b[3]), b[4])
  {
    XorZero(b[0]);
    var c1 := EncipherBytes(t, b[0]);
    var c2 := Link(t, c1, b[1]);
    var c3 := Link(t, c2, b[2]);
    assert b == [b[0]] + b[1..];
    CbcCons(t, ZERO_BLOCK, b[0], b[1..]);
    assert b[1..] == [b[1]] + b[2..];
    CbcCons(t, c1, b[1], b[2..]);
    assert b[2..] == [b[2]] + b[3..];
    CbcCons(t, c2, b[2], b[3..]);
    assert b[3..] == [b[3]] + b[4..];
    CbcCons(t, c3, b[3], b[4..]);
    assert b[4..] == [b[4]] + [];
    CbcCons(t, Link(t, c3, b[3]), b[4], []);
  }

  /** The password substitute is the CBC message authentication code of its five blocks under the token. */
  method GeneratePasswordSubstitute(userID: array<Byte>, token: array<Byte>, sequenceNumber: array<Byte>,
                                    clientSeed: array<Byte>, serverSeed: array<Byte>)
    returns (result: array<Byte>)
    requires userID.Length == 10
    requires token.Length == sequenceNumber.Length == clientSeed.Length == serverSeed.Length == 8
    ensures fresh(result) && result.Length == 8
    ensures result[..] == CbcMac(token[..], SubstituteBlocks(userID[..], sequenceNumber[..], clientSeed[..], serverSeed[..]))
  {
    hide CbcMac, EncipherBytes, XorBytes;
    ghost var t, blocks := token[..], SubstituteBlocks(userID[..], sequenceNumber[..], clientSeed[..], serverSeed[..]);
    CbcOfFive(t, blocks);
    var rdrSeq := RunningSequence(sequenceNumber, serverSeed);
    assert token[..8] == t && clientSeed[..8] == blocks[1] && sequenceNumber[..8] == blocks[4];

    var nextEncryptedData := EncDes(token, rdrSeq);
    assert nextEncryptedData[..8] == nextEncryptedData[..];
    nextEncryptedData := EncipherMixed(token, nextEncryptedData, clientSeed);

    var data3 := UserBlock(userID, rdrSeq);
    nextEncryptedData := EncipherMixed(token, data3, nextEncryptedData);

    var data4 := TailBlock(userID, rdrSeq);
    nextEncryptedData := EncipherMixed(token, data4, nextEncryptedData);

    result := EncipherMixed(token, sequenceNumber, nextEncryptedData);
    assert result[..] == result[..8];
  }

  /** The server seed advanced by the sequence number. */
  method RunningSequence(sequenceNumber: array<Byte>, serverSeed: array<Byte>) returns (rdrSeq: array<Byte>)
    requires sequenceNumber.Length == serverSeed.Length == 8
    ensures fresh(rdrSeq) && rdrSeq.Length == 8
    ensures rdrSeq[..8] == AddColumns(sequenceNumber[..], serverSeed[..]).1
  {
    rdrSeq := new Byte[8](_ => 0);
    assert sequenceNumber[..8] == sequenceNumber[..] && serverSeed[..8] == serverSeed[..];
    AddArrays(sequenceNumber, serverSeed, rdrSeq, 8);
  }

  method UserBlock(userID: array<Byte>, rdrSeq: array<Byte>) returns (data3: array<Byte>)
    requires userID.Length == 10 && rdrSeq.Length == 8
    ensures fresh(data3) && data3.Length == 8
    ensures data3[..8] == XorBytes(userID[..][..8], rdrSeq[..8])
  {
    data3 := new Byte[8](_ => 0);
    assert userID[..8] == userID[..][..8];
    XorArrays(userID, rdrSeq, data3);
  }

  /** The last two bytes of the user ID, blank-padded, mixed with the running sequence in place. */
  method TailBlock(userID: array<Byte>, rdrSeq: array<Byte>) returns (data4: array<Byte>)
    requires userID.Length == 10 && rdrSeq.Length == 8
    ensures fresh(data4) && data4.Length == 8
    ensures data4[..8] == XorBytes(rdrSeq[..8], Pad(userID[..][8..]))
  {
    data4 := new Byte[8](_ => BLANK);
    data4[0] := userID[8];
    data4[1] := userID[9];
    assert data4[..8] == Pad(userID[..][8..]);
    XorArrays(rdrSeq, data4, data4);
  }

  // ---- What the token and the substitute determine ----

  lemma EncipherInjective(key: seq<Byte>, a: seq<Byte>, b: seq<Byte>)
    requires |key| == |a| == |b| == 8 && EncipherBytes(key, a) == EncipherBytes(key, b)
    ensures a == b
  {
    EncipherIsBijection(key, a);
    EncipherIsBijection(key, b);
  }

  /** Chaining the same blocks from different states ends in different codes. */
  lemma {:induction false} CbcFromInjective(key: seq<Byte>, s: seq<Byte>, t: seq<Byte>, blocks: seq<seq<Byte>>)
    requires |key| == |s| == |t| == 8 && forall i | 0 <= i < |blocks| :: |blocks[i]| == 8
    requires CbcFrom(key, s, blocks) == CbcFrom(key, t, blocks)
    ensures s == t
    decreases |blocks|
  {
    if blocks != [] {
      var s', t' := XorBytes(s, blocks[0]), XorBytes(t, blocks[0]);
      CbcFromInjective(key, EncipherBytes(key, s'), EncipherBytes(key, t'), blocks[1..]);
      EncipherInjective(key, s', t');
      XorBytesTwice(s, blocks[0]);
      XorBytesTwice(t, blocks[0]);
    }
  }

  lemma {:induction false} CbcSplit(key: seq<Byte>, state: seq<Byte>, front: seq<seq<Byte>>, back: seq<seq<Byte>>)
    requires |key| == |state| == 8
    requires forall i | 0 <= i < |front| :: |front[i]| == 8
    requires forall i | 0 <= i < |back| :: |back[i]| == 8
    ensures CbcFrom(key, state, front + back) == CbcFrom(key, CbcFrom(key, state, front), back)
    decreases |front|
  {
    if front == [] {
      assert front + back == back;
    } else {
      assert (front + back)[1..] == front[1..] + back;
      CbcSplit(key, EncipherBytes(key, XorBytes(state, front[0])), front[1..], back);
    }
  }

  /** Two messages that differ in exactly one block never have the same code. */
  lemma CbcOneBlockInjective(key: seq<Byte>, front: seq<seq<Byte>>, x: seq<Byte>, y: seq<Byte>, back: seq<seq<Byte>>)
    requires |key| == |x| == |y| == 8
    requires forall i | 0 <= i < |front| :: |front[i]| == 8
    requires forall i | 0 <= i < |back| :: |back[i]| == 8
    requires CbcMac(key, front + [x] + back) == CbcMac(key, front + [y] + back)
    ensures x == y
  {
    var s := CbcFrom(key, ZERO_BLOCK, front);
    assert front + [x] + back == front + ([x] + back) && front + [y] + back == front + ([y] + back);
    CbcSplit(key, ZERO_BLOCK, front, [x] + back);
    CbcSplit(key, ZERO_BLOCK, front, [y] + back);
    assert ([x] + back)[1..] == back && ([y] + back)[1..] == back;
    CbcFromInjective(key, EncipherBytes(key, XorBytes(s, x)), EncipherBytes(key, XorBytes(s, y)), back);
    EncipherInjective(key, XorBytes(s, x), XorBytes(s, y));
    XorBytesTwice(x, s);
    XorBytesTwice(y, s);
  }

  /** With everything else fixed, different client seeds give different substitutes. */
  lemma ClientSeedDetermined(token: seq<Byte>, user: seq<Byte>, seqNo: seq<Byte>, serverSeed: seq<Byte>, c: seq<Byte>, d: seq<Byte>)
    requires |token| == |seqNo| == |serverSeed| == |c| == |d| == 8 && |user| == 10
    requires CbcMac(token, SubstituteBlocks(user, seqNo, c, serverSeed)) == CbcMac(token, SubstituteBlocks(user, seqNo, d, serverSeed))
    ensures c == d
  {
    var b, b' := SubstituteBlocks(user, seqNo, c, serverSeed), SubstituteBlocks(user, seqNo, d, serverSeed);
    assert b == [b[0]] + [c] + b[2..] && b' == [b[0]] + [d] + b[2..];
    CbcOneBlockInjective(token, [b[0]], c, d, b[2..]);
  }

  /** Bytes that agree but for their top bits make the same cipher subkeys: the shift moves the top bits into parity. */
  lemma TopBitsIgnored(p: seq<Byte>, q: seq<Byte>)
    requires |p| == |q| == 8
    requires forall i, k | 0 <= i < 8 && 0 <= k < 7 :: TestBit(p[i], k) == TestBit(q[i], k)
    ensures Subkeys(ToBits(PasswordKey(p))) == Subkeys(ToBits(PasswordKey(q)))
  {
    hide TestBit, Subkeys;
    KeyBytes(p);
    KeyBytes(q);
    hide ToBits, PasswordKey;
    forall b | 0 <= b < 64 && (b + 1) % 8 != 0 ensures ToBits(PasswordKey(p))[b] == ToBits(PasswordKey(q))[b] {
      SameKeyBit(p, q, b);
    }
    ParityIgnored(ToBits(PasswordKey(p)), ToBits(PasswordKey(q)));
  }

  lemma KeyBytes(p: seq<Byte>)
    requires |p| == 8
    ensures |PasswordKey(p)| == 8 && |ToBits(PasswordKey(p))| == 64
  {}

  lemma SameKeyBit(p: seq<Byte>, q: seq<Byte>, b: nat)
    requires |p| == |q| == 8 && b < 64 && (b + 1) % 8 != 0
    requires forall i, k | 0 <= i < 8 && 0 <= k < 7 :: TestBit(p[i], k) == TestBit(q[i], k)
    ensures |ToBits(PasswordKey(p))| == |ToBits(PasswordKey(q))| == 64
    ensures ToBits(PasswordKey(p))[b] == ToBits(PasswordKey(q))[b]
  {
    hide TestBit;
    var i, k := b / 8, 7 - b % 8;
    assert TestBit(p[i], k - 1) == TestBit(q[i], k - 1);
    ShiftedBit(p, i, k);
    ShiftedBit(q, i, k);
  }

  /** Above its lowest bit, each byte of the key holds the next lower bits of the masked password byte. */
  lemma ShiftedBit(p: seq<Byte>, i: nat, k: nat)
    requires |p| == 8 && i < 8 && 0 < k < 8
    ensures TestBit(PasswordKey(p)[i], k) == (TestBit(p[i], k - 1) != TestBit(0x55, k - 1))
  {
    var masked := XorBytes(p, MASK);
    assert masked[i] == Xor(p[i], 0x55);
    ShiftedByte(masked[i], if i + 1 < 8 then masked[i + 1] as int / 128 else 0, k);
    MaskedBit(p[i], 0x55, k - 1);
  }

  lemma MaskedBit(a: Byte, b: Byte, k: nat)
    requires k < 8
    ensures TestBit(Xor(a, b), k) == (TestBit(a, k) != TestBit(b, k))
  {
    assert Pow2(8) == 256;
    XorBelowBits(a, b, 8, k);
  }

  lemma ShiftedByte(m: Byte, low: nat, k: nat)
    requires low <= 1 && 0 < k < 8
    ensures TestBit((2 * m as int + low) % 256, k) == TestBit(m, k - 1)
  {
    assert (2 * m as int + low) % 256 / 2 == m % 128;
    assert Pow2(7) == 128;
    if m >= 128 {
      HighBitApart(m - 128, 7, k - 1);
    }
  }

  lemma {:induction false} HighBitApart(v: nat, n: nat, k: nat)
    requires k < n
    ensures TestBit(v + Pow2(n), k) == TestBit(v, k)
  {
    assert (v + Pow2(n)) / 2 == v / 2 + Pow2(n - 1);
    if k > 0 {
      HighBitApart(v / 2, n - 1, k - 1);
    }
  }

  /** A short password and its token determine the folded user ID: deciphering gives it back. */
  lemma TokenRevealsUser(user: seq<Byte>, password: seq<Byte>)
    requires |user| == |password| == 10 && NameLength(password) <= 8
    ensures DecipherBytes(PasswordKey(Pad(password[..NameLength(password)])), Token(user, password)) == FoldUser(user)
  {
    EncipherIsBijection(PasswordKey(Pad(password[..NameLength(password)])), FoldUser(user));
  }

  lemma XorUndone(a: seq<Byte>, b: seq<Byte>)
    requires |a| == |b|
    ensures XorBytes(XorBytes(a, b), a) == b && XorBytes(XorBytes(a, b), b) == a
  {
    XorBytesTwice(a, b);
    XorBytesTwice(b, a);
  }

  /** So do a password of nine or ten bytes and its token: either ciphertext taken off leaves the other. */
  lemma LongTokenRevealsUser(user: seq<Byte>, password: seq<Byte>, n: nat)
    requires |user| == |password| == 10 && n == NameLength(password) > 8
    ensures var u, front, back := FoldUser(user), PasswordKey(password[..8]), PasswordKey(Pad(password[8..n]));
            && DecipherBytes(back, XorBytes(Token(user, password), EncipherBytes(front, u))) == u
            && DecipherBytes(front, XorBytes(Token(user, password), EncipherBytes(back, u))) == u
  {
    hide FoldUser, PasswordKey, Pad, NameLength, Token, EncipherBytes, DecipherBytes, XorBytes;
    LongTokenIs(user, password, n);
    EitherHalf(PasswordKey(password[..8]), PasswordKey(Pad(password[8..n])), FoldUser(user));
  }

  lemma LongTokenIs(user: seq<Byte>, password: seq<Byte>, n: nat)
    requires |user| == |password| == 10 && n == NameLength(password) > 8
    ensures Token(user, password) == XorBytes(EncipherBytes(PasswordKey(password[..8]), FoldUser(user)),
                                              EncipherBytes(PasswordKey(Pad(password[8..n])), FoldUser(user)))
  {
    hide FoldUser, EncipherBytes, XorBytes, NameLength, PasswordKey, Pad;
  }

  lemma EitherHalf(front: seq<Byte>, back: seq<Byte>, u: seq<Byte>)
    requires |front| == |back| == |u| == 8
    ensures var t := XorBytes(EncipherBytes(front, u), EncipherBytes(back, u));
            && DecipherBytes(back, XorBytes(t, EncipherBytes(front, u))) == u
            && DecipherBytes(front, XorBytes(t, EncipherBytes(back, u))) == u
  {
    hide EncipherBytes, DecipherBytes, XorBytes;
    XorUndone(EncipherBytes(front, u), EncipherBytes(back, u));
    EncipherIsBijection(front, u);
    EncipherIsBijection(back, u);
  }

  // ---- The bits of the key and of the folded user ID ----

  lemma MaskBit(k: nat)
    requires k < 8
    ensures TestBit(0x55, k) == (k % 2 == 0)
  {
    assert TestBit(0x55, 0) && !TestBit(0x55, 1) && TestBit(0x55, 2) && !TestBit(0x55, 3);
    assert TestBit(0x55, 4) && !TestBit(0x55, 5) && TestBit(0x55, 6) && !TestBit(0x55, 7);
  }

  /**
   Bit by bit: a key byte holds its password byte moved up by one, every other bit inverted, and in its
   lowest bit the top bit of the next password byte.
   */
  lemma PasswordKeyBits(p: seq<Byte>, i: nat, k: nat)
    requires |p| == 8 && i < 8 && k < 8
    ensures TestBit(PasswordKey(p)[i], k)
         == if k > 0 then TestBit(p[i], k - 1) != (k % 2 == 1) else i < 7 && TestBit(p[i + 1], 7)
  {
    if k > 0 {
      ShiftedBit(p, i, k);
      MaskBit(k - 1);
    } else {
      LowestKeyBit(p, i);
    }
  }

  lemma LowestKeyBit(p: seq<Byte>, i: nat)
    requires |p| == 8 && i < 8
    ensures TestBit(PasswordKey(p)[i], 0) == (i < 7 && TestBit(p[i + 1], 7))
  {
    hide Xor, TestBit;
    var masked := XorBytes(p, MASK);
    var low := if i < 7 then masked[i + 1] as int / 128 else 0;
    assert PasswordKey(p)[i] == (2 * masked[i] as int + low) % 256;
    LowestBit(masked[i], low);
    if i < 7 {
      assert masked[i + 1] == Xor(p[i + 1], 0x55);
      MaskedBit(p[i + 1], 0x55, 7);
      MaskBit(7);
      TopBit(masked[i + 1]);
    }
  }

  lemma LowestBit(m: Byte, low: nat)
    requires low <= 1
    ensures TestBit((2 * m as int + low) % 256, 0) == (low == 1)
  {
    var r := (2 * m as int + low) % 256;
    assert r == 2 * m as int + low || r == 2 * (m as int - 128) + low;
  }

  lemma TopBit(b: Byte)
    ensures TestBit(b, 7) == (b as int / 128 == 1)
  {
    HalvedIs(b);
    HalvedBits(b, 6, 1);
    assert b as int / 64 / 2 == b as int / 128;
  }

  /** `v >> n`. */
  function Halved(v: nat, n: nat): (r: nat) {
    if n == 0 then v else Halved(v / 2, n - 1)
  }

  lemma {:induction false} HalvedBits(v: nat, n: nat, k: nat)
    ensures TestBit(Halved(v, n), k) == TestBit(v, k + n)
  {
    if n > 0 {
      HalvedBits(v / 2, n - 1, k);
    }
  }

  lemma HalvedTwice(v: nat, n: nat)
    requires n >= 2
    ensures Halved(v, n) == Halved(v / 4, n - 2)
  {
    assert v / 2 / 2 == v / 4;
    assert Halved(v, n) == Halved(v / 2, n - 1) == Halved(v / 2 / 2, n - 2);
  }

  lemma HalvedIs(v: nat)
    ensures Halved(v, 0) == v && Halved(v, 2) == v / 4 && Halved(v, 4) == v / 16 && Halved(v, 6) == v / 64
  {
    HalvedTwice(v, 2);
    HalvedTwice(v, 4);
    HalvedTwice(v / 4, 2);
    HalvedTwice(v, 6);
    HalvedTwice(v / 4, 4);
    HalvedTwice(v / 16, 2);
    assert v / 4 / 4 == v / 16 && v / 16 / 4 == v / 64;
  }

  lemma {:induction false} ShiftedUp(v: nat, n: nat, k: nat)
    ensures TestBit(v * Pow2(n), k) == (k >= n && TestBit(v, k - n))
  {
    if n > 0 {
      assert v * Pow2(n) == 2 * (v * Pow2(n - 1));
      if k > 0 {
        ShiftedUp(v, n - 1, k - 1);
      }
    }
  }

  lemma LowPair(v: nat, k: nat)
    ensures TestBit(v % 4, k) == (k < 2 && TestBit(v, k))
  {
    LowPairParts(v, v / 4, v % 4);
    if k >= 2 {
      assert v % 4 / 2 / 2 == 0;
      ZeroHasNoBits(k - 2);
    }
  }

  lemma LowPairParts(v: nat, q: nat, r: nat)
    requires v == 4 * q + r && r < 4
    ensures r % 2 == v % 2 && r / 2 % 2 == v / 2 % 2
  {
    assert v / 2 == 2 * q + r / 2;
  }

  /** A pair of bits moved to the top of a byte. */
  lemma TopPairBits(b: Byte, j: nat, k: nat)
    requires j < 4 && k < 8
    ensures TestBit(TopPair(b, j), k) == (k >= 6 && TestBit(b, k - 2 * j))
  {
    assert Pow2(4) == 16 && Pow2(6) == 64;
    HalvedIs(b);
    var v := Halved(b, 6 - 2 * j);
    assert TopPair(b, j) == v % 4 * 64;
    hide Halved, TestBit, TopPair;
    ShiftedUp(v % 4, 6, k);
    if k >= 6 {
      LowPair(v, k - 6);
      HalvedBits(b, 6 - 2 * j, k - 6);
    }
  }

  /**
   Bit by bit: of a user ID longer than eight bytes, the sixteen bits of the last two bytes go, two by
   two from the top, into the two top bits of the first eight, exclusive-ored; the other bits stay.
   */
  lemma FoldedBits(u: seq<Byte>, i: nat, k: nat)
    requires |u| == 10 && i < 8 && k < 8
    ensures TestBit(FoldUser(u)[i], k)
         == (TestBit(u[i], k) != (NameLength(u) > 8 && k >= 6 && TestBit(u[if i < 4 then 8 else 9], k - 2 * (if i < 4 then i else i - 4))))
  {
    hide Xor, TopPair;
    if NameLength(u) > 8 {
      var j := if i < 4 then i else i - 4;
      var b := u[if i < 4 then 8 else 9];
      MaskedBit(u[i], TopPair(b, j), k);
      TopPairBits(b, j, k);
    }
  }

  // ---- Unwinding the substitute ----

  lemma Unlink(key: seq<Byte>, state: seq<Byte>, block: seq<Byte>)
    requires |key| == |state| == |block| == 8
    ensures XorBytes(DecipherBytes(key, Link(key, state, block)), block) == state
  {
    EncipherIsBijection(key, XorBytes(state, block));
    XorUndone(state, block);
  }

  /**
   The server's view: deciphering the substitute under the token five times, taking off in turn the
   sequence number, the end of the user ID blank-padded and its start, each with the advanced server seed,
   and the client seed, leaves the advanced server seed: the number of the server seed plus that of the
   sequence number, modulo 2^64.
   */
  lemma SubstituteUnwinds(token: seq<Byte>, user: seq<Byte>, seqNo: seq<Byte>, client: seq<Byte>, server: seq<Byte>, rdr: seq<Byte>)
    requires |token| == |seqNo| == |client| == |server| == |rdr| == 8 && |user| == 10
    requires BigEndian(rdr) == (BigEndian(seqNo) + BigEndian(server)) % Pow256(8)
    ensures var c5 := CbcMac(token, SubstituteBlocks(user, seqNo, client, server));
            var c4 := XorBytes(DecipherBytes(token, c5), seqNo);
            var tail := [user[8], user[9], 0x40, 0x40, 0x40, 0x40, 0x40, 0x40];
            var c3 := XorBytes(DecipherBytes(token, c4), XorBytes(rdr, tail));
            var c2 := XorBytes(DecipherBytes(token, c3), XorBytes(user[..8], rdr));
            var c1 := XorBytes(DecipherBytes(token, c2), client);
            DecipherBytes(token, c1) == rdr
  {
    hide EncipherBytes, DecipherBytes, XorBytes, CbcMac, BigEndian, AddColumns, IsSum;
    var b := SubstituteBlocks(user, seqNo, client, server);
    RunningIsSum(seqNo, server, rdr);
    PaddedTail(user);
    ChainUnwinds(token, b);
  }

  lemma RunningIsSum(seqNo: seq<Byte>, server: seq<Byte>, rdr: seq<Byte>)
    requires |seqNo| == |server| == |rdr| == 8 && BigEndian(rdr) == (BigEndian(seqNo) + BigEndian(server)) % Pow256(8)
    ensures AddColumns(seqNo, server).1 == rdr
  {
    hide BigEndian, AddColumns;
    AddColumnsModulo(seqNo, server);
    BigEndianInjective(AddColumns(seqNo, server).1, rdr);
  }

  lemma PaddedTail(user: seq<Byte>)
    requires |user| == 10
    ensures Pad(user[8..]) == [user[8], user[9], 0x40, 0x40, 0x40, 0x40, 0x40, 0x40]
  {}

  lemma ChainUnwinds(key: seq<Byte>, b: seq<seq<Byte>>)
    requires |key| == 8 && |b| == 5 && forall i | 0 <= i < 5 :: |b[i]| == 8
    ensures var c4 := XorBytes(DecipherBytes(key, CbcMac(key, b)), b[4]);
            var c3 := XorBytes(DecipherBytes(key, c4), b[3]);
            var c2 := XorBytes(DecipherBytes(key, c3), b[2]);
            var c1 := XorBytes(DecipherBytes(key, c2), b[1]);
            DecipherBytes(key, c1) == b[0]
  {
    hide EncipherBytes, DecipherBytes, XorBytes, CbcMac, Link;
    CbcOfFive(key, b);
    var c1 := EncipherBytes(key, b[0]);
    var c2 := Link(key, c1, b[1]);
    var c3 := Link(key, c2, b[2]);
    Unlink(key, Link(key, c3, b[3]), b[4]);
    Unlink(key, c3, b[3]);
    Unlink(key, c2, b[2]);
    Unlink(key, c1, b[1]);
    EncipherIsBijection(key, b[0]);
  }
}
