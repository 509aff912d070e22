/**
 The declet tables of src/datatypes/AS400DecFloat.js: three decimal digits in ten bits, and which
 digit triples come back from them.
 */
module DecFloatTables {
  import opened Bytes

  /** `(n >> k) & 1` for the four bits of a digit. */
  function Bit8(n: nat): (b: nat) requires n < 10 { if n >= 8 then 1 else 0 }
  function Bit4(n: nat): (b: nat) requires n < 10 { if 4 <= n < 8 then 1 else 0 }
  function Bit2(n: nat): (b: nat) requires n < 10 { if n == 2 || n == 3 || n == 6 || n == 7 then 1 else 0 }
  function Bit1(n: nat): (b: nat) requires n < 10 { if n == 1 || n == 3 || n == 5 || n == 7 || n == 9 then 1 else 0 }

  /** The four bits make up the digit. */
  lemma BitsOfDigit(n: nat)
    requires n < 10
    ensures Bit8(n) < 2 && Bit4(n) < 2 && Bit2(n) < 2 && Bit1(n) < 2
    ensures n == 8 * Bit8(n) + 4 * Bit4(n) + 2 * Bit2(n) + Bit1(n)
  {}

  /** The number of a declet's ten bits, highest first. */
  function Ten(p: nat, q: nat, r: nat, s: nat, t: nat, u: nat, v: nat, w: nat, x: nat, y: nat): (c: nat) {
    512 * p + 256 * q + 128 * r + 64 * s + 32 * t + 16 * u + 8 * v + 4 * w + 2 * x + y
  }

  /** The case table of the encoder, row by row. */
  function EncodeTriple(d0: nat, d1: nat, d2: nat): (c: nat)
    requires d0 < 10 && d1 < 10 && d2 < 10
    ensures c < 1024
  {
    var b, c, d := Bit4(d0), Bit2(d0), Bit1(d0);
    var f, g, h := Bit4(d1), Bit2(d1), Bit1(d1);
    var j, k, m := Bit4(d2), Bit2(d2), Bit1(d2);
    if d0 < 8 && d1 < 8 && d2 < 8 then Ten(b, c, d, f, g, h, 0, j, k, m)
    else if d0 < 8 && d1 < 8 then Ten(b, c, d, f, g, h, 1, 0, 0, m)
    else if d0 < 8 && d2 < 8 then Ten(b, c, d, j, k, h, 1, 0, 1, m)
    else if d0 < 8 then Ten(b, c, d, 0, 0, h, 1, 1, 1, m)
    else if d1 < 8 && d2 < 8 then Ten(j, k, d, f, g, h, 1, 1, 0, m)
    else if d1 < 8 then Ten(f, g, d, 0, 1, h, 1, 1, 0, m)
    else if d2 < 8 then Ten(j, k, d, 0, 0, h, 1, 1, 1, m)
    else Ten(0, 0, d, 0, 1, h, 1, 1, 1, m)
  }

  /** The declet of a number below 1000. */
  function Encode(val: nat): (c: nat)
    requires val < 1000
    ensures c < 1024
  {
    EncodeTriple(val / 100, val % 100 / 10, val % 10)
  }

  /** The declets of the numbers 0 to 999. */
  function Codes(): (codes: seq<nat>)
    ensures |codes| == 1000
  {
    seq(1000, v requires 0 <= v < 1000 => Encode(v))
  }

  lemma CodesAre(v: nat)
    requires v < 1000
    ensures Codes()[v] == Encode(v)
  {
    hide Encode;
  }

  /** The last index of a code, or 0. */
  function LastWith(codes: seq<nat>, c: nat): (val: nat)
    ensures val == 0 || val < |codes|
  {
    if codes == [] then 0
    else if codes[|codes| - 1] == c then |codes| - 1
    else LastWith(codes[..|codes| - 1], c)
  }

  lemma {:induction false} LastWithIsLast(codes: seq<nat>, w: nat)
    requires w < |codes|
    ensures w <= LastWith(codes, codes[w]) < |codes| && codes[LastWith(codes, codes[w])] == codes[w]
  {
    if codes[|codes| - 1] != codes[w] {
      LastWithIsLast(codes[..|codes| - 1], w);
    }
  }

  /** `dpdToBcd[c] || 0`: the last number with that declet, or 0. */
  function Decode(c: nat): (val: nat)
    ensures val < 1000
  {
    LastWith(Codes(), c)
  }

  lemma {:induction false} LastWithHits(codes: seq<nat>, c: nat)
    requires LastWith(codes, c) > 0
    ensures codes[LastWith(codes, c)] == c
  {
    if codes[|codes| - 1] != c {
      LastWithHits(codes[..|codes| - 1], c);
    }
  }

  lemma DecodedHasCode(c: nat)
    requires Decode(c) > 0
    ensures Encode(Decode(c)) == c
  {
    LastWithHits(Codes(), c);
    CodesAre(Decode(c));
  }

  /** No number with the same declet is larger than the one decoded. */
  lemma DecodesToLargest(w: nat)
    requires w < 1000
    ensures w <= Decode(Encode(w)) && Encode(Decode(Encode(w))) == Encode(w)
  {
    CodesAre(w);
    LastWithIsLast(Codes(), w);
    CodesAre(Decode(Encode(w)));
  }

  lemma SmallCodes(k: nat)
    requires k < 4
    ensures EncodeTriple(0, 0, k) == k && Decode(k) >= k
  {
    hide Decode, Codes;
    DigitsOfValue(0, 0, k);
    BitsOfDigit(k);
    DecodesToLargest(k);
  }

  method EncodeNumber(val: nat) returns (dpd: nat)
    requires val < 1000
    ensures dpd == Encode(val)
  {
    var d0 := val / 100;
    var d1 := val % 100 / 10;
    var d2 := val % 10;
    dpd := EncodeTriple(d0, d1, d2);
  }

  /** The start-up loop that fills both tables: a later number takes over a declet from an earlier one. */
  method InitTables(bcdToDpd: array<nat>, dpdToBcd: array<nat>)
    requires bcdToDpd.Length == 1000 && dpdToBcd.Length == 1024 && bcdToDpd != dpdToBcd
    requires forall c | 0 <= c < 1024 :: dpdToBcd[c] == 0
    modifies bcdToDpd, dpdToBcd
    ensures bcdToDpd[..] == Codes()
    ensures forall c | 0 <= c < 1024 :: dpdToBcd[c] == Decode(c)
  {
    hide Codes;
    for val := 0 to 1000
      invariant bcdToDpd[..val] == Codes()[..val]
      invariant forall c | 0 <= c < 1024 :: dpdToBcd[c] == LastWith(Codes()[..val], c)
    {
      var dpd := EncodeNumber(val);
      CodesAre(val);
      bcdToDpd[val] := dpd;
      dpdToBcd[dpd] := val;
      assert Codes()[..val + 1][..val] == Codes()[..val];
    }
    assert bcdToDpd[..] == bcdToDpd[..1000] && Codes()[..1000] == Codes();
  }

  // ---- Which triples come back ----

  /** A triple whose declet another, larger triple takes over. */
  predicate Overwritten(d0: nat, d1: nat, d2: nat) {
    || (d0 < 8 && d1 >= 8 && d2 >= 8)
    || (d0 >= 8 && 2 <= d1 < 4 && 2 <= d2 < 8)
    || (d0 >= 8 && d1 < 2 && d2 >= 8)
  }

  function Value(d0: nat, d1: nat, d2: nat): (v: nat) {
    100 * d0 + 10 * d1 + d2
  }

  lemma DigitsOfValue(d0: nat, d1: nat, d2: nat)
    requires d0 < 10 && d1 < 10 && d2 < 10
    ensures Value(d0, d1, d2) < 1000
    ensures Value(d0, d1, d2) / 100 == d0 && Value(d0, d1, d2) % 100 / 10 == d1 && Value(d0, d1, d2) % 10 == d2
    ensures Encode(Value(d0, d1, d2)) == EncodeTriple(d0, d1, d2)
  {}

  /** The bits of a declet's number are the ten it was made of. */
  lemma TenBits(p: nat, q: nat, r: nat, s: nat, t: nat, u: nat, v: nat, w: nat, x: nat, y: nat)
    requires p < 2 && q < 2 && r < 2 && s < 2 && t < 2 && u < 2 && v < 2 && w < 2 && x < 2 && y < 2
    ensures var c := Ten(p, q, r, s, t, u, v, w, x, y);
            && TestBit(c, 9) == (p == 1) && TestBit(c, 8) == (q == 1) && TestBit(c, 7) == (r == 1) && TestBit(c, 6) == (s == 1)
            && TestBit(c, 5) == (t == 1) && TestBit(c, 4) == (u == 1) && TestBit(c, 3) == (v == 1) && TestBit(c, 2) == (w == 1)
            && TestBit(c, 1) == (x == 1) && TestBit(c, 0) == (y == 1)
  {
    hide TestBit;
    var n2 := 2 * p + q;
    var n3 := 2 * n2 + r;
    var n4 := 2 * n3 + s;
    var n5 := 2 * n4 + t;
    var n6 := 2 * n5 + u;
    var n7 := 2 * n6 + v;
    var n8 := 2 * n7 + w;
    var n9 := 2 * n8 + x;
    AddBit(0, p, p);
    AddBit(p, q, n2);
    AddBit(n2, r, n3);
    AddBit(n3, s, n4);
    AddBit(n4, t, n5);
    AddBit(n5, u, n6);
    AddBit(n6, v, n7);
    AddBit(n7, w, n8);
    AddBit(n8, x, n9);
    AddBit(n9, y, Ten(p, q, r, s, t, u, v, w, x, y));
  }

  /** A further bit behind the others moves them up by one. */
  lemma AddBit(n: nat, bit: nat, m: nat)
    requires bit < 2 && m == 2 * n + bit
    ensures TestBit(m, 0) == (bit == 1)
    ensures forall k: nat | k > 0 :: TestBit(m, k) == TestBit(n, k - 1)
  {}

  lemma AllTenBits()
    ensures forall p: nat, q: nat, r: nat, s: nat, t: nat, u: nat, v: nat, w: nat, x: nat, y: nat
              | p < 2 && q < 2 && r < 2 && s < 2 && t < 2 && u < 2 && v < 2 && w < 2 && x < 2 && y < 2 ::
              var c := Ten(p, q, r, s, t, u, v, w, x, y);
              && TestBit(c, 9) == (p == 1) && TestBit(c, 8) == (q == 1) && TestBit(c, 7) == (r == 1) && TestBit(c, 6) == (s == 1)
              && TestBit(c, 5) == (t == 1) && TestBit(c, 4) == (u == 1) && TestBit(c, 3) == (v == 1) && TestBit(c, 2) == (w == 1)
              && TestBit(c, 1) == (x == 1) && TestBit(c, 0) == (y == 1)
  {
    hide TestBit, Ten;
    forall p: nat, q: nat, r: nat, s: nat, t: nat, u: nat, v: nat, w: nat, x: nat, y: nat
      | p < 2 && q < 2 && r < 2 && s < 2 && t < 2 && u < 2 && v < 2 && w < 2 && x < 2 && y < 2
    {
      TenBits(p, q, r, s, t, u, v, w, x, y);
    }
  }

  /** Of two triples with one declet, the one that is not overwritten is the larger. */
  lemma KeptIsLargest(d0: nat, d1: nat, d2: nat, e0: nat, e1: nat, e2: nat)
    requires d0 < 10 && d1 < 10 && d2 < 10 && e0 < 10 && e1 < 10 && e2 < 10
    requires EncodeTriple(d0, d1, d2) == EncodeTriple(e0, e1, e2) && !Overwritten(d0, d1, d2)
    ensures Value(e0, e1, e2) <= Value(d0, d1, d2)
  {
    hide EncodeTriple, Overwritten;
    if d0 < 8 && e0 < 8 {
      KeptAmongSmall(d0, d1, d2, e0, e1, e2);
    } else if d0 < 8 {
      NoLargeFirst(d0, d1, d2, e0, e1, e2);
    } else {
      KeptAmongAll(d0, d1, d2, e0, e1, e2);
    }
  }

  lemma KeptAmongSmall(d0: nat, d1: nat, d2: nat, e0: nat, e1: nat, e2: nat)
    requires d0 < 8 && d1 < 10 && d2 < 10 && e0 < 8 && e1 < 10 && e2 < 10
    requires EncodeTriple(d0, d1, d2) == EncodeTriple(e0, e1, e2) && !Overwritten(d0, d1, d2)
    ensures Value(e0, e1, e2) <= Value(d0, d1, d2)
  {
    hide TestBit, Ten;
    AllTenBits();
    SameByBits(d0, e0);
    SameByBits(d1, e1);
    SameByBits(d2, e2);
  }

  lemma NoLargeFirst(d0: nat, d1: nat, d2: nat, e0: nat, e1: nat, e2: nat)
    requires d0 < 8 && d1 < 10 && d2 < 10 && 8 <= e0 < 10 && e1 < 10 && e2 < 10 && !Overwritten(d0, d1, d2)
    ensures EncodeTriple(d0, d1, d2) != EncodeTriple(e0, e1, e2)
  {
    hide TestBit, Ten;
    AllTenBits();
  }

  lemma KeptAmongAll(d0: nat, d1: nat, d2: nat, e0: nat, e1: nat, e2: nat)
    requires 8 <= d0 < 10 && d1 < 10 && d2 < 10 && e0 < 10 && e1 < 10 && e2 < 10
    requires EncodeTriple(d0, d1, d2) == EncodeTriple(e0, e1, e2) && !Overwritten(d0, d1, d2)
    ensures Value(e0, e1, e2) <= Value(d0, d1, d2)
  {
    hide TestBit, Ten;
    AllTenBits();
    SameByBits(d0, e0);
    SameByBits(d1, e1);
    SameByBits(d2, e2);
  }

  lemma SameByBits(a: nat, b: nat)
    requires a < 10 && b < 10
    ensures a == b <==> Bit8(a) == Bit8(b) && Bit4(a) == Bit4(b) && Bit2(a) == Bit2(b) && Bit1(a) == Bit1(b)
  {}

  /** The larger triple that takes over the declet of an overwritten one. */
  function Successor(d0: nat, d1: nat, d2: nat): (e: (nat, nat, nat))
    requires d0 < 10 && d1 < 10 && d2 < 10 && Overwritten(d0, d1, d2)
    ensures e.0 < 10 && e.1 < 10 && e.2 < 10
    ensures Value(e.0, e.1, e.2) > Value(d0, d1, d2)
  {
    if d0 < 8 then (8 + Bit1(d0), d1, 4 * Bit4(d0) + 2 * Bit2(d0) + Bit1(d2))
    else if d2 < 8 then (d0, 4 * Bit4(d2) + 2 * Bit2(d2) + Bit1(d1), 8 + Bit1(d2))
    else (d0, 2 + d1, d2 - 8)
  }

  lemma SmallDigit(b4: nat, b2: nat, b1: nat)
    requires b4 < 2 && b2 < 2 && b1 < 2
    ensures var n := 4 * b4 + 2 * b2 + b1; n < 8 && Bit4(n) == b4 && Bit2(n) == b2 && Bit1(n) == b1
  {}

  lemma LargeDigit(b1: nat)
    requires b1 < 2
    ensures Bit1(8 + b1) == b1
  {}

  lemma SuccessorHasSameCode(d0: nat, d1: nat, d2: nat)
    requires d0 < 10 && d1 < 10 && d2 < 10 && Overwritten(d0, d1, d2)
    ensures var e := Successor(d0, d1, d2); EncodeTriple(e.0, e.1, e.2) == EncodeTriple(d0, d1, d2)
  {
    BitsOfDigit(d0);
    BitsOfDigit(d1);
    BitsOfDigit(d2);
    if d0 < 8 {
      hide Ten, Bit4, Bit2, Bit1;
      LargeDigit(Bit1(d0));
      SmallDigit(Bit4(d0), Bit2(d0), Bit1(d2));
    } else if d2 < 8 {
      hide Ten, Bit4, Bit2, Bit1;
      LargeDigit(Bit1(d2));
      SmallDigit(Bit4(d2), Bit2(d2), Bit1(d1));
    } else {
      hide Ten;
    }
  }

  lemma OverwrittenIsLost(d0: nat, d1: nat, d2: nat)
    requires d0 < 10 && d1 < 10 && d2 < 10 && Overwritten(d0, d1, d2)
    ensures Decode(EncodeTriple(d0, d1, d2)) > Value(d0, d1, d2)
  {
    hide EncodeTriple;
    var e := Successor(d0, d1, d2);
    SuccessorHasSameCode(d0, d1, d2);
    DigitsOfValue(e.0, e.1, e.2);
    DecodesToLargest(Value(e.0, e.1, e.2));
  }

  lemma DigitsOf(w: nat)
    requires w < 1000
    ensures w / 100 < 10 && w % 100 / 10 < 10 && w % 10 < 10 && Value(w / 100, w % 100 / 10, w % 10) == w
  {}

  lemma KeptComesBack(d0: nat, d1: nat, d2: nat)
    requires d0 < 10 && d1 < 10 && d2 < 10 && !Overwritten(d0, d1, d2)
    ensures Decode(EncodeTriple(d0, d1, d2)) == Value(d0, d1, d2)
  {
    DigitsOfValue(d0, d1, d2);
    DecodesToLargest(Value(d0, d1, d2));
    var w := Decode(EncodeTriple(d0, d1, d2));
    DigitsOf(w);
    KeptIsLargest(d0, d1, d2, w / 100, w % 100 / 10, w % 10);
  }

  /** Exactly the triples that are not overwritten come back from their declet. */
  lemma ComesBackIff(d0: nat, d1: nat, d2: nat)
    requires d0 < 10 && d1 < 10 && d2 < 10
    ensures Decode(EncodeTriple(d0, d1, d2)) == Value(d0, d1, d2) <==> !Overwritten(d0, d1, d2)
  {
    if Overwritten(d0, d1, d2) {
      OverwrittenIsLost(d0, d1, d2);
    } else {
      KeptComesBack(d0, d1, d2);
    }
  }

  /** In particular every triple of the digits 0 to 7. */
  lemma SmallComesBack(d0: nat, d1: nat, d2: nat)
    requires d0 < 8 && d1 < 8 && d2 < 8
    ensures Decode(EncodeTriple(d0, d1, d2)) == Value(d0, d1, d2)
  {
    hide EncodeTriple, Decode;
    ComesBackIff(d0, d1, d2);
  }

  /** For one: 099 comes back as 891. */
  lemma NinetyNineTurnsInto891()
    ensures Decode(EncodeTriple(0, 9, 9)) == 891
  {
    KeptComesBack(8, 9, 1);
    assert EncodeTriple(8, 9, 1) == EncodeTriple(0, 9, 9);
  }

  // ---- The standard ----

  function DigitOfBits(b4: bool, b2: bool, b1: bool): (d: nat) {
    (if b4 then 4 else 0) + (if b2 then 2 else 0) + if b1 then 1 else 0
  }

  function LargeOf(b1: bool): (d: nat) {
    if b1 then 9 else 8
  }

  /** The digits that IEEE Std 754-2008 (section 3.5.2, table 3.3) reads in a declet, its bits counted from 0 at the front. */
  function StandardDigits(c: nat): (d: (nat, nat, nat)) {
    var b0, b1, b2, b3, b4 := TestBit(c, 9), TestBit(c, 8), TestBit(c, 7), TestBit(c, 6), TestBit(c, 5);
    var b5, b6, b7, b8, b9 := TestBit(c, 4), TestBit(c, 3), TestBit(c, 2), TestBit(c, 1), TestBit(c, 0);
    if !b6 then (DigitOfBits(b0, b1, b2), DigitOfBits(b3, b4, b5), DigitOfBits(b7, b8, b9))
    else if !b7 && !b8 then (DigitOfBits(b0, b1, b2), DigitOfBits(b3, b4, b5), LargeOf(b9))
    else if !b7 then (DigitOfBits(b0, b1, b2), LargeOf(b5), DigitOfBits(b3, b4, b9))
    else if !b8 then (LargeOf(b2), DigitOfBits(b3, b4, b5), DigitOfBits(b0, b1, b9))
    else if !b3 && !b4 then (LargeOf(b2), LargeOf(b5), DigitOfBits(b0, b1, b9))
    else if !b3 then (LargeOf(b2), DigitOfBits(b0, b1, b5), LargeOf(b9))
    else if !b4 then (DigitOfBits(b0, b1, b2), LargeOf(b5), LargeOf(b9))
    else (LargeOf(b2), LargeOf(b5), LargeOf(b9))
  }

  /** The case table is the standard's, except for a last digit of 8 or 9 behind another one: those declets say other digits. */
  lemma StandardIff(d0: nat, d1: nat, d2: nat)
    requires d0 < 10 && d1 < 10 && d2 < 10
    ensures StandardDigits(EncodeTriple(d0, d1, d2)) == (d0, d1, d2) <==> !(d2 >= 8 && (d0 >= 8 || d1 >= 8))
  {
    hide TestBit, Ten;
    AllTenBits();
  }
}
