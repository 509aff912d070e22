/** What enciphering guarantees for every key and block: invertibility, complementation, parity. */
module DesTheorems {
  import opened DesSpec

  // ---- The tables ----

  /** The initial permutation reads the block's columns bottom-up, the even columns first. */
  ghost predicate InitialColumn(t: seq<nat>, c: nat)
    requires |t| == 64 && c < 8
  {
    && t[c] == 58 - 8 * c && t[8 + c] == 60 - 8 * c && t[16 + c] == 62 - 8 * c && t[24 + c] == 64 - 8 * c
    && t[32 + c] == 57 - 8 * c && t[40 + c] == 59 - 8 * c && t[48 + c] == 61 - 8 * c && t[56 + c] == 63 - 8 * c
  }

  ghost predicate OutputRow(t: seq<nat>, q: nat)
    requires |t| == 64 && q < 8
  {
    && t[8 * q] == 40 - q && t[8 * q + 1] == 8 - q && t[8 * q + 2] == 48 - q && t[8 * q + 3] == 16 - q
    && t[8 * q + 4] == 56 - q && t[8 * q + 5] == 24 - q && t[8 * q + 6] == 64 - q && t[8 * q + 7] == 32 - q
  }

  lemma InitialHasColumn(c: nat)
    requires c < 8
    ensures InitialColumn(INITPERM, c)
  {
    if c == 0 {} else if c == 1 {} else if c == 2 {} else if c == 3 {}
    else if c == 4 {} else if c == 5 {} else if c == 6 {} else {}
  }

  lemma OutputHasRow(q: nat)
    requires q < 8
    ensures OutputRow(OUTPERM, q)
  {
    if q == 0 {} else if q == 1 {} else if q == 2 {} else if q == 3 {}
    else if q == 4 {} else if q == 5 {} else if q == 6 {} else {}
  }

  lemma RowUndoesColumn(init: seq<nat>, out: seq<nat>, q: nat, c: nat)
    requires |init| == |out| == 64 && q < 8 && c < 8
    requires OutputRow(out, q) && InitialColumn(init, 7 - q)
    ensures 1 <= out[8 * q + c] <= 64 && init[out[8 * q + c] - 1] == 8 * q + c + 1
  {
    if c == 0 {} else if c == 1 {} else if c == 2 {} else if c == 3 {}
    else if c == 4 {} else if c == 5 {} else if c == 6 {} else {}
  }

  lemma ColumnUndoesRow(init: seq<nat>, out: seq<nat>, q: nat, c: nat)
    requires |init| == |out| == 64 && q < 8 && c < 8
    requires OutputRow(out, 7 - c) && InitialColumn(init, c)
    ensures 1 <= init[8 * q + c] <= 64 && out[init[8 * q + c] - 1] == 8 * q + c + 1
  {
    if q == 0 {} else if q == 1 {} else if q == 2 {} else if q == 3 {}
    else if q == 4 {} else if q == 5 {} else if q == 6 {} else {}
  }

  lemma ShapesAreInverse(init: seq<nat>, out: seq<nat>, i: nat)
    requires |init| == |out| == 64 && i < 64
    requires forall q | 0 <= q < 8 :: OutputRow(out, q)
    requires forall c | 0 <= c < 8 :: InitialColumn(init, c)
    ensures 1 <= out[i] <= 64 && init[out[i] - 1] == i + 1
    ensures 1 <= init[i] <= 64 && out[init[i] - 1] == i + 1
  {
    var q, c := i / 8, i % 8;
    RowUndoesColumn(init, out, q, c);
    ColumnUndoesRow(init, out, q, c);
  }

  lemma InversePermutations(init: seq<nat>, out: seq<nat>, s: Bits)
    requires |init| == |out| == |s| == 64
    requires forall q | 0 <= q < 8 :: OutputRow(out, q)
    requires forall c | 0 <= c < 8 :: InitialColumn(init, c)
    ensures Select(init, Select(out, s)) == s
    ensures Select(out, Select(init, s)) == s
  {
    forall i | 0 <= i < 64
      ensures Select(init, Select(out, s))[i] == s[i]
      ensures Select(out, Select(init, s))[i] == s[i]
    {
      ShapesAreInverse(init, out, i);
    }
  }

  /** The output permutation and the initial permutation undo each other. */
  lemma TablesAreInverse(s: Bits)
    requires |s| == 64
    ensures Select(INITPERM, Select(OUTPERM, s)) == s
    ensures Select(OUTPERM, Select(INITPERM, s)) == s
  {
    forall q | 0 <= q < 8 ensures OutputRow(OUTPERM, q) {
      OutputHasRow(q);
    }
    forall c | 0 <= c < 8 ensures InitialColumn(INITPERM, c) {
      InitialHasColumn(c);
    }
    InversePermutations(INITPERM, OUTPERM, s);
  }

  // ---- Feistel rounds ----

  lemma {:induction false} RoundsAppend(f: (Bits, Bits) -> Bits, keys: seq<Bits>, last: Bits, l: Bits, r: Bits)
    ensures var (l', r') := Rounds(f, keys, l, r);
            Rounds(f, keys + [last], l, r) == (r', XorBits(l', f(r', last)))
    decreases |keys|
  {
    if keys == [] {
      assert keys + [last] == [last];
    } else {
      assert (keys + [last])[1..] == keys[1..] + [last];
      RoundsAppend(f, keys[1..], last, r, XorBits(l, f(r, keys[0])));
    }
  }

  lemma {:induction false} RoundsKeepLength(f: (Bits, Bits) -> Bits, keys: seq<Bits>, l: Bits, r: Bits)
    requires |l| == |r|
    ensures var (l', r') := Rounds(f, keys, l, r); |l'| == |r'| == |l|
    decreases |keys|
  {
    if keys != [] {
      RoundsKeepLength(f, keys[1..], r, XorBits(l, f(r, keys[0])));
    }
  }

  lemma XorTwice(a: Bits, b: Bits)
    ensures XorBits(XorBits(a, b), b) == a
  {}

  /**
   For any round function, any number of rounds and any keys: running the rounds again from the
   exchanged halves, with the keys reversed, gives back the exchanged original halves.
   */
  lemma {:induction false} FeistelInverts(f: (Bits, Bits) -> Bits, keys: seq<Bits>, l: Bits, r: Bits)
    ensures var (l', r') := Rounds(f, keys, l, r);
            Rounds(f, Reverse(keys), r', l') == (r, l)
    decreases |keys|
  {
    if keys != [] {
      var r1 := XorBits(l, f(r, keys[0]));
      var (l', r') := Rounds(f, keys[1..], r, r1);
      FeistelInverts(f, keys[1..], r, r1);
      RoundsAppend(f, Reverse(keys[1..]), keys[0], r', l');
      XorTwice(l, f(r, keys[0]));
    }
  }

  /** Under any subkeys, the transformation with the subkeys reversed undoes the transformation. */
  lemma ReversedKeysUndo(keys: seq<Bits>, block: Bits)
    requires |block| == 64
    ensures DesWith(Reverse(keys), DesWith(keys, block)) == block
  {
    var start := Select(INITPERM, block);
    var l0, r0 := start[..32], start[32..];
    var (l, r) := Rounds(CipherFunction, keys, l0, r0);
    RoundsKeepLength(CipherFunction, keys, l0, r0);
    FeistelInverts(CipherFunction, keys, l0, r0);
    TablesAreInverse(r + l);
    assert (r + l)[..32] == r && (r + l)[32..] == l;
    assert l0 + r0 == start;
    TablesAreInverse(block);
  }

  lemma {:induction false} ReverseAppend<T>(s: seq<T>, x: T)
    ensures Reverse(s + [x]) == [x] + Reverse(s)
  {
    if s == [] {
      assert s + [x] == [x];
    } else {
      assert (s + [x])[1..] == s[1..] + [x];
      ReverseAppend(s[1..], x);
    }
  }

  lemma {:induction false} ReverseTwice<T>(s: seq<T>)
    ensures Reverse(Reverse(s)) == s
  {
    if s != [] {
      ReverseAppend(Reverse(s[1..]), s[0]);
      ReverseTwice(s[1..]);
    }
  }

  /** Deciphering undoes enciphering and enciphering undoes deciphering, for every key and block. */
  lemma DecipherInverts(key: Bits, block: Bits)
    requires |block| == 64
    ensures Decipher(key, Encipher(key, block)) == block
    ensures Encipher(key, Decipher(key, block)) == block
  {
    ReversedKeysUndo(Subkeys(key), block);
    ReversedKeysUndo(Reverse(Subkeys(key)), block);
    ReverseTwice(Subkeys(key));
  }

  // ---- Complementation ----

  lemma SelectNot(t: seq<nat>, s: Bits)
    requires Table(t, |t|, |s|)
    ensures Select(t, Not(s)) == Not(Select(t, s))
  {}

  lemma XorNot(a: Bits, b: Bits)
    requires |a| == |b|
    ensures XorBits(Not(a), Not(b)) == XorBits(a, b)
    ensures XorBits(Not(a), b) == Not(XorBits(a, b))
  {}

  lemma CipherFunctionNot(r: Bits, k: Bits)
    requires |r| == 32 && |k| == 48
    ensures CipherFunction(Not(r), Not(k)) == CipherFunction(r, k)
  {
    SelectNot(EPERM, r);
    XorNot(Select(EPERM, r), k);
  }

  function NotAll(keys: seq<Bits>): (r: seq<Bits>)
  {
    seq(|keys|, i requires 0 <= i < |keys| => Not(keys[i]))
  }

  lemma {:induction false} RoundsNot(keys: seq<Bits>, l: Bits, r: Bits)
    requires |l| == |r| == 32
    requires forall i | 0 <= i < |keys| :: |keys[i]| == 48
    ensures var (l', r') := Rounds(CipherFunction, keys, l, r);
            Rounds(CipherFunction, NotAll(keys), Not(l), Not(r)) == (Not(l'), Not(r'))
    decreases |keys|
  {
    if keys != [] {
      CipherFunctionNot(r, keys[0]);
      XorNot(l, CipherFunction(r, keys[0]));
      assert NotAll(keys)[1..] == NotAll(keys[1..]);
      RoundsNot(keys[1..], r, XorBits(l, CipherFunction(r, keys[0])));
    }
  }

  lemma RotateHalvesNot(cd: Bits, k: nat)
    requires |cd| == 56 && k <= 28
    ensures RotateHalves(Not(cd), k) == Not(RotateHalves(cd, k))
  {
    assert Not(cd)[..28] == Not(cd[..28]) && Not(cd)[28..] == Not(cd[28..]);
  }

  lemma SubkeyNot(key: Bits, i: nat)
    requires |key| == 64 && i < 16
    ensures Subkey(Not(key), i) == Not(Subkey(key, i))
  {
    var cd := Select(PC1, key);
    TotalShiftBounded(i + 1);
    SelectNot(PC1, key);
    RotateHalvesNot(cd, TotalShift(i + 1));
    SelectNot(PC2, RotateHalves(cd, TotalShift(i + 1)));
  }

  /** Complementing key and block complements the result. */
  lemma Complementation(key: Bits, block: Bits)
    requires |key| == |block| == 64
    ensures Encipher(Not(key), Not(block)) == Not(Encipher(key, block))
  {
    var keys := Subkeys(key);
    forall i | 0 <= i < 16 ensures Subkeys(Not(key))[i] == Not(keys[i]) {
      SubkeyNot(key, i);
    }
    assert Subkeys(Not(key)) == NotAll(keys);
    var start := Select(INITPERM, block);
    SelectNot(INITPERM, block);
    assert Not(start)[..32] == Not(start[..32]) && Not(start)[32..] == Not(start[32..]);
    RoundsNot(keys, start[..32], start[32..]);
    RoundsKeepLength(CipherFunction, keys, start[..32], start[32..]);
    var (l, r) := Rounds(CipherFunction, keys, start[..32], start[32..]);
    assert Not(r) + Not(l) == Not(r + l);
    SelectNot(OUTPERM, r + l);
  }

  // ---- Parity bits ----

  /** No round reads bits 8, 16, ... 64 of the key. */
  lemma ParityIgnored(key: Bits, key': Bits)
    requires |key| == |key'| == 64
    requires forall i | 0 <= i < 64 && (i + 1) % 8 != 0 :: key[i] == key'[i]
    ensures Subkeys(key) == Subkeys(key')
    ensures forall block: Bits :: Encipher(key, block) == Encipher(key', block)
  {
    forall i | 0 <= i < 56 ensures Select(PC1, key)[i] == Select(PC1, key')[i] {
      Pc1SkipsParity(i);
    }
    assert Select(PC1, key) == Select(PC1, key');
    forall r | 0 <= r < 16 ensures Subkeys(key)[r] == Subkeys(key')[r] {
    }
  }

  lemma Pc1SkipsParity(i: nat)
    requires i < 56
    ensures PC1[i] % 8 != 0
  {}
}
