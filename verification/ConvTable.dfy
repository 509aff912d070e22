/**
 The single-byte and UTF-16 converters of src/ccsid/ConvTable.js. A string is a sequence of 16-bit
 code units, as in the source.
 */
module ConvTables {
  import opened Bytes
  import opened Outcome

  type Unit = x: int | 0 <= x < 0x1_0000

  const CIC: Unit := 0xFFFF
  const RIC: Unit := 0xFFFE
  const HBIC: Unit := 0x0000
  const PAD: Unit := 0xFEFE
  const SUB: Byte := 0x3F
  const CHUNK: nat := 4096

  // ---- What compressed words stand for ----

  predicate IsMarker(w: Unit) {
    w == CIC || w == RIC || w == HBIC
  }

  /** `arr[i]`, with 0 where the source computes with `undefined`. */
  function WordAt(ws: seq<Unit>, i: nat): (w: Unit) {
    if i < |ws| then ws[i] else 0
  }

  function Drop(ws: seq<Unit>, n: nat): (r: seq<Unit>)
  {
    if n <= |ws| then ws[n..] else []
  }

  function RepeatUnit(u: Unit, n: nat): (r: seq<Unit>)
    ensures |r| == n
  {
    seq(n, _ => u)
  }

  /** `n` consecutive units from `start` on, modulo 2^16. */
  function Ramp(n: nat, start: nat): (r: seq<Unit>)
    ensures |r| == n
  {
    seq(n, k requires 0 <= k < n => (start + k) % 0x1_0000)
  }

  /** The two units of a word in a high-byte run: each of its bytes behind the run's high byte. */
  function Pair(high: Unit, both: Unit): (r: seq<Unit>)
    requires high % 256 == 0
  {
    [(high + both / 256) % 0x1_0000, (high + both % 256) % 0x1_0000]
  }

  function Pairs(high: Unit, ws: seq<Unit>, n: nat): (r: seq<Unit>)
    requires high % 256 == 0
    ensures |r| == 2 * n
  {
    if n == 0 then [] else Pairs(high, ws, n - 1) + Pair(high, WordAt(ws, n - 1))
  }

  function HighByte(first: Unit): (h: Unit)
    ensures h % 256 == 0
  {
    first / 256 * 256
  }

  /** The units a compressed word sequence, well formed or not, expands to. */
  function Output(ws: seq<Unit>): (r: seq<Unit>)
    decreases |ws|
  {
    if ws == [] then []
    else if IsMarker(ws[0]) && |ws| > 1 && ws[1] == PAD then [ws[0]] + Output(Drop(ws, 2))
    else if ws[0] == CIC then RepeatUnit(WordAt(ws, 2), WordAt(ws, 1)) + Output(Drop(ws, 3))
    else if ws[0] == RIC then (if |ws| > 2 then Ramp(ws[1], ws[2]) else []) + Output(Drop(ws, 3))
    else if ws[0] == HBIC then
      [WordAt(ws, 2)] + Pairs(HighByte(WordAt(ws, 2)), Drop(ws, 3), WordAt(ws, 1)) + Output(Drop(ws, 3 + WordAt(ws, 1)))
    else [ws[0]] + Output(Drop(ws, 1))
  }

  /** Byte `k` of units written high byte first. */
  function ByteOf(units: seq<Unit>, k: nat): (b: Byte)
    requires k < 2 * |units|
  {
    if k % 2 == 0 then units[k / 2] / 256 else units[k / 2] % 256
  }

  /** A reverse table that starts with these units, as far as they fit, and substitutes everything else. */
  ghost predicate IsTableOf(table: seq<Byte>, units: seq<Unit>) {
    |table| == 0x1_0000 && forall k | 0 <= k < 0x1_0000 :: table[k] == if k < 2 * |units| then ByteOf(units, k) else SUB
  }

  // ---- Decompression in place ----

  /** The table holds `units` up to the cursor, which stands behind them or behind the end. */
  ghost predicate Holds(table: seq<Byte>, units: seq<Unit>, c: nat) {
    && |table| == 0x1_0000 && c % 2 == 0
    && (c == 2 * |units| || (c >= 0x1_0000 && 2 * |units| >= 0x1_0000))
    && forall k | 0 <= k < c && k < 0x1_0000 :: table[k] == ByteOf(units, k)
  }

  lemma HoldsMore(table: seq<Byte>, units: seq<Unit>, c: nat, u: Unit, table': seq<Byte>)
    requires Holds(table, units, c) && |table'| == |table|
    requires forall k | 0 <= k < |table| && k != c && k != c + 1 :: table'[k] == table[k]
    requires c < |table| ==> table'[c] == u / 256
    requires c + 1 < |table| ==> table'[c + 1] == u % 256
    ensures Holds(table', units + [u], c + 2)
  {
    var more := units + [u];
    forall k | 0 <= k < c + 2 && k < 0x1_0000 ensures table'[k] == ByteOf(more, k) {
      if k < c {
        assert more[k / 2] == units[k / 2];
      }
    }
  }

  /** Past the end of the table nothing more is written. */
  lemma HoldsPastEnd(table: seq<Byte>, units: seq<Unit>, c: nat, more: seq<Unit>)
    requires Holds(table, units, c) && c >= 0x1_0000
    ensures Holds(table, units + more, c)
  {
    assert 2 * |units| >= 0x1_0000;
    forall k | 0 <= k < c && k < 0x1_0000 ensures table[k] == ByteOf(units + more, k) {
      assert (units + more)[k / 2] == units[k / 2];
    }
  }

  lemma HoldsNothing(table: seq<Byte>)
    requires |table| == 0x1_0000
    ensures Holds(table, [], 0)
  {}

  /** `buf[c++] = u >> 8; buf[c++] = u & 0xFF`, ignored past the end. */
  method PutUnit(table: array<Byte>, c: nat, u: Unit, ghost units: seq<Unit>) returns (c': nat)
    requires Holds(table[..], units, c)
    modifies table
    ensures c' == c + 2 && Holds(table[..], units + [u], c')
  {
    ghost var was := table[..];
    if c < table.Length {
      table[c] := u / 256;
    }
    if c + 1 < table.Length {
      table[c + 1] := u % 256;
    }
    c' := c + 2;
    HoldsMore(was, units, c, u, table[..]);
  }

  method PutRepeat(table: array<Byte>, c: nat, count: Unit, u: Unit, ghost units: seq<Unit>) returns (c': nat)
    requires Holds(table[..], units, c)
    modifies table
    ensures Holds(table[..], units + RepeatUnit(u, count), c')
  {
    hide Holds;
    HoldsIsEven(table[..], units, c);
    c' := c;
    var max := count * 2 + c;
    ghost var n := 0;
    assert units + RepeatUnit(u, 0) == units;
    while c' < max && c' < table.Length
      invariant n <= count && c' == c + 2 * n && Holds(table[..], units + RepeatUnit(u, n), c')
      decreases max - c'
    {
      c' := PutUnit(table, c', u, units + RepeatUnit(u, n));
      assert units + RepeatUnit(u, n) + [u] == units + RepeatUnit(u, n + 1);
      n := n + 1;
    }
    if n < count {
      HoldsPastEnd(table[..], units + RepeatUnit(u, n), c', RepeatUnit(u, count - n));
      assert units + RepeatUnit(u, n) + RepeatUnit(u, count - n) == units + RepeatUnit(u, count);
    }
  }

  lemma HoldsIsEven(table: seq<Byte>, units: seq<Unit>, c: nat)
    requires Holds(table, units, c)
    ensures c % 2 == 0 && |table| == 0x1_0000
  {}

  method PutRamp(table: array<Byte>, c: nat, num: Unit, start: Unit, ghost units: seq<Unit>) returns (c': nat)
    requires Holds(table[..], units, c)
    modifies table
    ensures Holds(table[..], units + Ramp(num, start), c')
  {
    hide Holds;
    HoldsIsEven(table[..], units, c);
    c' := c;
    var j: nat := start;
    assert units + Ramp(0, start) == units;
    while j < num + start && c' < table.Length
      invariant start <= j <= start + num && Holds(table[..], units + Ramp(j - start, start), c')
      decreases num + start - j
    {
      c' := PutUnit(table, c', j % 0x1_0000, units + Ramp(j - start, start));
      assert Ramp(j + 1 - start, start) == Ramp(j - start, start) + [j % 0x1_0000];
      assert units + Ramp(j - start, start) + [j % 0x1_0000] == units + Ramp(j + 1 - start, start);
      j := j + 1;
    }
    if j < num + start {
      var n := j - start;
      HoldsPastEnd(table[..], units + Ramp(n, start), c', Ramp(num, start)[n..]);
      assert Ramp(num, start) == Ramp(n, start) + Ramp(num, start)[n..];
      assert units + Ramp(n, start) + Ramp(num, start)[n..] == units + Ramp(num, start);
    }
  }

  lemma {:induction false} PairsPrefix(high: Unit, ws: seq<Unit>, m: nat, n: nat)
    requires high % 256 == 0 && m <= n
    ensures Pairs(high, ws, n)[..2 * m] == Pairs(high, ws, m)
  {
    if m < n {
      PairsPrefix(high, ws, m, n - 1);
    }
  }

  method PutPairs(table: array<Byte>, c: nat, arr: seq<Unit>, i: nat, hbNum: Unit, high: Unit, ghost units: seq<Unit>) returns (c': nat)
    requires Holds(table[..], units, c) && high % 256 == 0
    modifies table
    ensures Holds(table[..], units + Pairs(high, Drop(arr, i), hbNum), c')
  {
    hide Holds, Pair;
    HoldsIsEven(table[..], units, c);
    c' := c;
    ghost var ws := Drop(arr, i);
    assert units + Pairs(high, ws, 0) == units;
    var j := 0;
    while j < hbNum && c' < table.Length
      invariant j <= hbNum && Holds(table[..], units + Pairs(high, ws, j), c')
    {
      var both := WordAt(arr, i + j);
      c' := PutPair(table, c', high, both, units + Pairs(high, ws, j));
      assert WordAt(ws, j) == both;
      assert units + Pairs(high, ws, j) + Pair(high, both) == units + Pairs(high, ws, j + 1);
      j := j + 1;
    }
    if j < hbNum {
      var all := Pairs(high, ws, hbNum);
      PairsPrefix(high, ws, j, hbNum);
      HoldsPastEnd(table[..], units + Pairs(high, ws, j), c', all[2 * j..]);
      assert units + Pairs(high, ws, j) + all[2 * j..] == units + all;
    }
  }

  method PutPair(table: array<Byte>, c: nat, high: Unit, both: Unit, ghost units: seq<Unit>) returns (c': nat)
    requires Holds(table[..], units, c) && high % 256 == 0
    modifies table
    ensures Holds(table[..], units + Pair(high, both), c')
  {
    hide Holds;
    var c1 := (high + both / 256) % 0x1_0000;
    var c2 := (high + both % 256) % 0x1_0000;
    c' := PutUnit(table, c, c1, units);
    c' := PutUnit(table, c', c2, units + [c1]);
    assert units + [c1] + [c2] == units + Pair(high, both);
  }

  /** The last stage: everything behind the cursor becomes the substitution byte. */
  method FillRest(table: array<Byte>, c: nat, ghost units: seq<Unit>)
    requires Holds(table[..], units, c)
    modifies table
    ensures IsTableOf(table[..], units)
  {
    ghost var was := table[..];
    if c < table.Length {
      for i := c to table.Length
        invariant forall k | 0 <= k < table.Length :: table[k] == if c <= k < i then SUB else was[k]
      {
        table[i] := SUB;
      }
    }
  }

  lemma Continue(arr: seq<Unit>, i: nat, done: seq<Unit>, more: seq<Unit>, n: nat)
    requires Output(arr) == done + Output(Drop(arr, i)) && Output(Drop(arr, i)) == more + Output(Drop(arr, i + n))
    ensures Output(arr) == (done + more) + Output(Drop(arr, i + n))
  {
    assert done + (more + Output(Drop(arr, i + n))) == (done + more) + Output(Drop(arr, i + n));
  }

  lemma DropDrop(arr: seq<Unit>, i: nat, n: nat)
    ensures Drop(Drop(arr, i), n) == Drop(arr, i + n)
  {}

  /** One step of the expansion, read at position `i`: the units put out and the number of words used. */
  function Step(arr: seq<Unit>, i: nat): (r: (seq<Unit>, nat))
    requires i < |arr|
    ensures r.1 > 0
  {
    if IsMarker(arr[i]) && i + 1 < |arr| && arr[i + 1] == PAD then ([arr[i]], 2)
    else if arr[i] == CIC then (RepeatUnit(WordAt(arr, i + 2), WordAt(arr, i + 1)), 3)
    else if arr[i] == RIC then (if i + 2 < |arr| then Ramp(arr[i + 1], arr[i + 2]) else [], 3)
    else if arr[i] == HBIC then
      ([WordAt(arr, i + 2)] + Pairs(HighByte(WordAt(arr, i + 2)), Drop(arr, i + 3), WordAt(arr, i + 1)), 3 + WordAt(arr, i + 1))
    else ([arr[i]], 1)
  }

  lemma OutputStep(arr: seq<Unit>, i: nat)
    requires i < |arr|
    ensures Output(Drop(arr, i)) == Step(arr, i).0 + Output(Drop(arr, i + Step(arr, i).1))
  {
    hide Pairs, Ramp, RepeatUnit;
    var ws := Drop(arr, i);
    assert ws[0] == arr[i] && WordAt(ws, 1) == WordAt(arr, i + 1) && WordAt(ws, 2) == WordAt(arr, i + 2);
    DropDrop(arr, i, Step(arr, i).1);
    DropDrop(arr, i, 3);
  }

  method PutStep(arr: seq<Unit>, i: nat, table: array<Byte>, c: nat, ghost done: seq<Unit>) returns (i': nat, c': nat)
    requires i < |arr| && Holds(table[..], done, c)
    modifies table
    ensures i' == i + Step(arr, i).1 && Holds(table[..], done + Step(arr, i).0, c')
  {
    hide Holds, Pairs, Ramp, RepeatUnit;
    var val := arr[i];
    if IsMarker(val) && i + 1 < |arr| && arr[i + 1] == PAD {
      c' := PutUnit(table, c, val, done);
      i' := i + 2;
    } else if val == CIC {
      c' := PutRepeat(table, c, WordAt(arr, i + 1), WordAt(arr, i + 2), done);
      i' := i + 3;
    } else if val == RIC {
      c' := c;
      if i + 2 < |arr| {
        c' := PutRamp(table, c, arr[i + 1], arr[i + 2], done);
      } else {
        assert done + [] == done;
      }
      i' := i + 3;
    } else if val == HBIC {
      var hbNum, firstChar := WordAt(arr, i + 1), WordAt(arr, i + 2);
      c' := PutUnit(table, c, firstChar, done);
      c' := PutPairs(table, c', arr, i + 3, hbNum, HighByte(firstChar), done + [firstChar]);
      ghost var pairs := Pairs(HighByte(firstChar), Drop(arr, i + 3), hbNum);
      assert done + [firstChar] + pairs == done + ([firstChar] + pairs);
      i' := i + 3 + hbNum;
    } else {
      c' := PutUnit(table, c, val, done);
      i' := i + 1;
    }
  }

  /** For every word sequence the loop ends, and leaves the expansion cut at the end of the table, or filled up to it. */
  method DecompressSB(arr: seq<Unit>, table: array<Byte>)
    requires table.Length == 0x1_0000
    modifies table
    ensures IsTableOf(table[..], Output(arr))
  {
    hide Holds, Step, Output;
    var c, i := 0, 0;
    ghost var done: seq<Unit> := [];
    HoldsNothing(table[..]);
    while i < |arr|
      invariant Holds(table[..], done, c) && Output(arr) == done + Output(Drop(arr, i))
      decreases |arr| - i
    {
      OutputStep(arr, i);
      Continue(arr, i, done, Step(arr, i).0, Step(arr, i).1);
      ghost var more := Step(arr, i).0;
      i, c := PutStep(arr, i, table, c, done);
      done := done + more;
    }
    OutputOfNothing();
    assert Drop(arr, i) == [] && done + [] == done;
    FillRest(table, c, done);
  }

  // ---- Tokens ----

  datatype Token =
    | Literal(unit: Unit)
    | Run(count: Unit, unit: Unit)
    | Range(count: Unit, start: Unit)
    | HighBytes(first: Unit, words: seq<Unit>)

  /** The words a token is written as; a literal marker is escaped by the padding word. */
  function Words(t: Token): (ws: seq<Unit>)
    requires t.HighBytes? ==> |t.words| < 0x1_0000
  {
    match t
    case Literal(u) => if IsMarker(u) then [u, PAD] else [u]
    case Run(count, u) => [CIC, count, u]
    case Range(count, start) => [RIC, count, start]
    case HighBytes(first, words) => [HBIC, |words|, first] + words
  }

  /** The units a token means. */
  function Meaning(t: Token): (r: seq<Unit>) {
    match t
    case Literal(u) => [u]
    case Run(count, u) => RepeatUnit(u, count)
    case Range(count, start) => Ramp(count, start)
    case HighBytes(first, words) => [first] + Pairs(HighByte(first), words, |words|)
  }

  function Meanings(ts: seq<Token>): (r: seq<Unit>) {
    if ts == [] then [] else Meaning(ts[0]) + Meanings(ts[1..])
  }

  ghost predicate Writable(ts: seq<Token>) {
    forall i | 0 <= i < |ts| :: ts[i].HighBytes? ==> |ts[i].words| < 0x1_0000
  }

  function AllWords(ts: seq<Token>): (ws: seq<Unit>)
    requires Writable(ts)
  {
    if ts == [] then [] else Words(ts[0]) + AllWords(ts[1..])
  }

  lemma {:induction false} PairsLocal(high: Unit, a: seq<Unit>, b: seq<Unit>, n: nat)
    requires high % 256 == 0 && n <= |a| && n <= |b| && a[..n] == b[..n]
    ensures Pairs(high, a, n) == Pairs(high, b, n)
  {
    if n > 0 {
      assert a[..n - 1] == a[..n][..n - 1] && b[..n - 1] == b[..n][..n - 1];
      assert a[n - 1] == a[..n][n - 1] && b[n - 1] == b[..n][n - 1];
      PairsLocal(high, a, b, n - 1);
    }
  }

  /** The words of a token that fits are read back as that token, whatever follows: escapes are unambiguous. */
  lemma WordsReadBack(t: Token, rest: seq<Unit>)
    requires |Meaning(t)| <= 0x8000
    ensures t.HighBytes? ==> |t.words| < 0x1_0000
    ensures Output(Words(t) + rest) == Meaning(t) + Output(rest)
  {
    hide Pairs, Ramp, RepeatUnit;
    var ws := Words(t) + rest;
    match t
    case Literal(u) =>
      assert Drop(ws, |Words(t)|) == rest;
    case Run(count, u) =>
      assert count != PAD && ws[0] == CIC && ws[1] == count && ws[2] == u && Drop(ws, 3) == rest;
    case Range(count, start) =>
      assert count != PAD && ws[0] == RIC && ws[1] == count && ws[2] == start && Drop(ws, 3) == rest;
    case HighBytes(first, words) =>
      HighBytesReadBack(first, words, rest);
  }

  lemma HighBytesReadBack(first: Unit, words: seq<Unit>, rest: seq<Unit>)
    requires |words| < 0x4000
    ensures Output([HBIC, |words|, first] + words + rest) == [first] + Pairs(HighByte(first), words, |words|) + Output(rest)
  {
    hide Pairs;
    var n, ws := |words|, [HBIC, |words|, first] + words + rest;
    assert ws[0] == HBIC && ws[1] == n && ws[2] == first;
    assert Drop(ws, 3) == words + rest && Drop(ws, 3 + n) == rest;
    assert (words + rest)[..n] == words[..n];
    PairsLocal(HighByte(first), words + rest, words, n);
  }

  lemma {:induction false} TokensReadBack(ts: seq<Token>)
    requires |Meanings(ts)| <= 0x8000
    ensures Writable(ts) && Output(AllWords(ts)) == Meanings(ts)
  {
    hide Meaning, Words, Output;
    if ts == [] {
      OutputOfNothing();
    } else {
      TokensReadBack(ts[1..]);
      assert Writable(ts) by {
        WordsReadBack(ts[0], []);
        assert forall i | 0 < i < |ts| :: ts[i] == ts[1..][i - 1];
      }
      WordsReadBack(ts[0], AllWords(ts[1..]));
    }
  }

  lemma OutputOfNothing()
    ensures Output([]) == []
  {}

  /**
   For every list of tokens whose meaning fits the table: their words expand to exactly this meaning,
   and a table is that of the words if and only if it holds the bytes meant, followed by the
   substitution byte.
   */
  lemma DecompressesTokens(ts: seq<Token>, table: seq<Byte>)
    requires |Meanings(ts)| <= 0x8000
    ensures Writable(ts) && Output(AllWords(ts)) == Meanings(ts)
    ensures IsTableOf(table, Output(AllWords(ts))) <==>
              |table| == 0x1_0000
              && (forall k | 0 <= k < 2 * |Meanings(ts)| :: table[k] == ByteOf(Meanings(ts), k))
              && (forall k | 2 * |Meanings(ts)| <= k < 0x1_0000 :: table[k] == SUB)
  {
    hide ByteOf, Output, Meanings;
    TokensReadBack(ts);
  }

  // ---- What each token means, unit by unit ----

  lemma {:induction false} PairsAre(high: Unit, ws: seq<Unit>, n: nat, m: nat)
    requires high % 256 == 0 && n <= |ws| && m < 2 * n
    ensures Pairs(high, ws, n)[m] == high + ByteOf(ws, m)
  {
    if m < 2 * (n - 1) {
      PairsAre(high, ws, n - 1, m);
    } else {
      HighFits(high, ws[n - 1] / 256);
      HighFits(high, ws[n - 1] % 256);
    }
  }

  lemma HighFits(high: Unit, low: nat)
    requires high % 256 == 0 && low < 256
    ensures high + low < 0x1_0000 && (high + low) % 0x1_0000 == high + low
  {}

  /**
   A high-byte run means its first unit and then, for each byte of its words, the higher one of a word
   first, the unit with the first unit's high byte and that byte as its low one.
   */
  lemma HighBytesMean(first: Unit, words: seq<Unit>, m: nat)
    requires m < 2 * |words|
    ensures var r := Meaning(HighBytes(first, words));
            |r| == 1 + 2 * |words| && r[0] == first && r[1 + m] == first / 256 * 256 + ByteOf(words, m)
  {
    PairsAre(HighByte(first), words, |words|, m);
  }

  /** A ramp means as many units as it counts, each one more than the one before, modulo 2^16. */
  lemma RangeMeans(count: Unit, start: Unit, k: nat)
    requires k < count
    ensures var r := Meaning(Range(count, start)); |r| == count && r[k] == (start + k) % 0x1_0000
  {}

  lemma RunMeans(count: Unit, unit: Unit, k: nat)
    requires k < count
    ensures var r := Meaning(Run(count, unit)); |r| == count && r[k] == unit
  {}

  /** For one: the words 0000 0001 4100 1234 expand to the units 4100 4112 4134. */
  lemma HighByteRunExample()
    ensures Output([0x0000, 0x0001, 0x4100, 0x1234]) == [0x4100, 0x4112, 0x4134]
  {
    hide Output, Meaning;
    var t := HighBytes(0x4100, [0x1234]);
    HighBytesMean(0x4100, [0x1234], 0);
    HighBytesMean(0x4100, [0x1234], 1);
    OutputOfOne(t);
    assert Words(t) == [0x0000, 0x0001, 0x4100, 0x1234];
    assert Meaning(t) == [0x4100, 0x4112, 0x4134];
  }

  /** The other escapes: three times 0041, three units from 0041 on, and the markers themselves. */
  lemma EscapesExample()
    ensures Output([0xFFFF, 3, 0x41]) == [0x41, 0x41, 0x41] && Output([0xFFFE, 3, 0x41]) == [0x41, 0x42, 0x43]
    ensures Output([0xFFFF, 0xFEFE]) == [0xFFFF] && Output([0xFFFE, 0xFEFE]) == [0xFFFE] && Output([0x0000, 0xFEFE]) == [0x0000]
  {
    hide Output;
    OutputOfOne(Run(3, 0x41));
    OutputOfOne(Range(3, 0x41));
    OutputOfOne(Literal(0xFFFF));
    OutputOfOne(Literal(0xFFFE));
    OutputOfOne(Literal(0x0000));
  }

  lemma OutputOfOne(t: Token)
    requires |Meaning(t)| <= 0x8000
    ensures t.HighBytes? ==> |t.words| < 0x1_0000
    ensures Output(Words(t)) == Meaning(t)
  {
    hide Output, Meaning, Words;
    WordsReadBack(t, []);
    OutputOfNothing();
    assert t.HighBytes? ==> |t.words| < 0x1_0000;
    assert Words(t) + [] == Words(t) && Meaning(t) + [] == Meaning(t);
  }

  // ---- The two directions of a table ----

  /** The table of the constructor: the given units, the rest 0. */
  function Padded(units: seq<Unit>): (t: seq<Unit>)
  {
    seq(256, i requires 0 <= i < 256 => if i < |units| then units[i] else 0)
  }

  /** The units that are never entered in a reverse map. */
  predicate Undefined(u: Unit) {
    u == 0xFFFD || u == 0x001A
  }

  /** The reverse map after the first `n` entries: the last of them that means `u`, or the substitution byte. */
  function ReverseOf(t: seq<Unit>, n: nat, u: Unit): (b: Byte)
    requires n <= |t| == 256
  {
    if n == 0 then SUB else if t[n - 1] == u && !Undefined(u) then n - 1 else ReverseOf(t, n - 1, u)
  }

  function ReverseTable(t: seq<Unit>): (r: seq<Byte>)
    requires |t| == 256
  {
    seq(0x1_0000, u requires 0 <= u < 0x1_0000 => ReverseOf(t, 256, u))
  }

  /** `table[buf[at]]`; past the end of the buffer the source makes a null character. */
  function UnitAt(t: seq<Unit>, buf: seq<Byte>, at: nat): (u: Unit)
    requires |t| == 256
  {
    if at < |buf| then t[buf[at]] else 0
  }

  function Decoded(t: seq<Unit>, buf: seq<Byte>, offset: nat, len: nat): (s: seq<Unit>)
    requires |t| == 256
  {
    seq<Unit>(len, i requires 0 <= i < len => UnitAt(t, buf, offset + i))
  }

  /** `table[u] || 0x3F`. */
  function EncodeUnit(table: seq<Byte>, u: Unit): (b: Byte)
    requires |table| == 0x1_0000
  {
    if table[u] != 0 then table[u] else SUB
  }

  function Encoded(table: seq<Byte>, s: seq<Unit>): (b: seq<Byte>)
    requires |table| == 0x1_0000
  {
    seq(|s|, i requires 0 <= i < |s| => EncodeUnit(table, s[i]))
  }

  class ConvTable {
    const toUnicode: array<Unit>
    const fromUnicode: array<Byte>

    ghost predicate Valid() {
      toUnicode.Length == 256 && fromUnicode.Length == 0x1_0000
    }

    constructor (units: seq<Unit>, compressed: seq<Unit>)
      ensures Valid() && fresh(toUnicode) && fresh(fromUnicode)
      ensures toUnicode[..] == Padded(units)
      ensures compressed != [] ==> IsTableOf(fromUnicode[..], Output(compressed))
      ensures compressed == [] ==> fromUnicode[..] == ReverseTable(Padded(units))
    {
      var forward := new Unit[256](_ => 0);
      for i := 0 to 256
        invariant forall k | 0 <= k < 256 :: forward[k] == if k < i && k < |units| then units[k] else 0
      {
        if i < |units| {
          forward[i] := units[i];
        }
      }
      var reverse := new Byte[0x1_0000](_ => SUB);
      toUnicode, fromUnicode := forward, reverse;
      new;
      if compressed != [] {
        DecompressSB(compressed, fromUnicode);
      } else {
        BuildReverse(toUnicode, fromUnicode);
      }
    }

    method ByteArrayToString(buf: seq<Byte>, offset: nat, length: Option<int>) returns (s: seq<Unit>)
      requires Valid()
      ensures var len := if length.Some? then length.value else |buf| - offset;
              s == Decoded(toUnicode[..], buf, offset, if len < 0 then 0 else len)
    {
      var len := if length.Some? then length.value else |buf| - offset;
      if len <= 0 {
        return [];
      }
      if len <= CHUNK {
        s := DecodeRange(toUnicode, buf, offset, 0, len);
        return;
      }
      s := [];
      var start := 0;
      while start < len
        invariant 0 <= start && s == Decoded(toUnicode[..], buf, offset, if start <= len then start else len)
      {
        var end := if start + CHUNK < len then start + CHUNK else len;
        var chars := DecodeRange(toUnicode, buf, offset, start, end);
        DecodedJoins(toUnicode[..], buf, offset, start, end);
        s := s + chars;
        start := start + CHUNK;
      }
    }

    method StringToByteArray(str: seq<Unit>) returns (buf: array<Byte>)
      requires Valid()
      ensures fresh(buf) && buf[..] == Encoded(fromUnicode[..], str)
    {
      buf := new Byte[|str|];
      for i := 0 to |str|
        invariant forall k | 0 <= k < i :: buf[k] == EncodeUnit(fromUnicode[..], str[k])
      {
        var b := fromUnicode[str[i]];
        buf[i] := if b != 0 then b else SUB;
      }
    }

    /** Writes the bytes of as many characters as the limit and the destination allow, and nothing else. */
    method StringToByteArrayInto(str: seq<Unit>, dest: array<Byte>, destOffset: nat, maxLen: int) returns (len: int)
      requires Valid() && dest != fromUnicode
      modifies dest
      ensures len == if |str| < maxLen then |str| else maxLen
      ensures forall i | 0 <= i < dest.Length ::
                dest[i] == if destOffset <= i < destOffset + len then Encoded(fromUnicode[..], str)[i - destOffset] else old(dest[i])
    {
      len := if |str| < maxLen then |str| else maxLen;
      var i: nat := 0;
      while i < len
        invariant len < 0 ==> i == 0
        invariant len >= 0 ==> i <= len
        invariant forall k | 0 <= k < dest.Length ::
                    dest[k] == if destOffset <= k < destOffset + i then Encoded(fromUnicode[..], str)[k - destOffset] else old(dest[k])
        decreases len - i
      {
        var b := fromUnicode[str[i]];
        if destOffset + i < dest.Length {
          dest[destOffset + i] := if b != 0 then b else SUB;
        }
        i := i + 1;
      }
    }
  }

  /** One chunk of decoded characters. */
  method DecodeRange(table: array<Unit>, buf: seq<Byte>, offset: nat, start: nat, end: nat) returns (chars: seq<Unit>)
    requires table.Length == 256 && start <= end
    ensures chars == Decoded(table[..], buf, offset + start, end - start)
  {
    chars := [];
    for i := start to end
      invariant chars == Decoded(table[..], buf, offset + start, i - start)
    {
      chars := chars + [UnitAt(table[..], buf, offset + i)];
    }
  }

  lemma DecodedJoins(t: seq<Unit>, buf: seq<Byte>, offset: nat, start: nat, end: nat)
    requires |t| == 256 && start <= end
    ensures Decoded(t, buf, offset, start) + Decoded(t, buf, offset + start, end - start) == Decoded(t, buf, offset, end)
  {}

  /** The reverse map built from the forward table: a later entry takes over a character from an earlier one. */
  method BuildReverse(toUnicode: array<Unit>, fromUnicode: array<Byte>)
    requires toUnicode.Length == 256 && fromUnicode.Length == 0x1_0000
    requires forall u | 0 <= u < 0x1_0000 :: fromUnicode[u] == SUB
    modifies fromUnicode
    ensures fromUnicode[..] == ReverseTable(toUnicode[..])
  {
    for ebcdic := 0 to 256
      invariant forall u: Unit :: fromUnicode[u] == ReverseOf(toUnicode[..], ebcdic, u)
    {
      var unicode := toUnicode[ebcdic];
      if unicode != 0xFFFD && unicode != 0x001A {
        fromUnicode[unicode] := ebcdic;
      }
    }
  }

  // ---- Round trips ----

  lemma {:induction false} ReverseIsLast(t: seq<Unit>, n: nat, u: Unit)
    requires n <= |t| == 256
    ensures var b := ReverseOf(t, n, u);
            if !Undefined(u) && exists e | 0 <= e < n :: t[e] == u
            then b < n && t[b] == u && forall e | b < e < n :: t[e] != u
            else b == SUB
  {
    if n > 0 {
      ReverseIsLast(t, n - 1, u);
    }
  }

  /** The characters a table gives back. */
  ghost predicate ComesBack(t: seq<Unit>, u: Unit)
    requires |t| == 256
  {
    u == t[SUB] || (!Undefined(u) && exists e | 1 <= e < 256 :: t[e] == u)
  }

  lemma UnitRoundTripIff(t: seq<Unit>, u: Unit)
    requires |t| == 256
    ensures t[EncodeUnit(ReverseTable(t), u)] == u <==> ComesBack(t, u)
  {
    ReverseIsLast(t, 256, u);
    var b := ReverseOf(t, 256, u);
    assert ReverseTable(t)[u] == b;
  }

  /**
   For every table without a supplied reverse table, a string is decoded back to itself exactly when
   each of its characters is the one of the substitution byte, or is defined and has a byte other than 0.
   */
  lemma StringRoundTripIff(t: seq<Unit>, s: seq<Unit>)
    requires |t| == 256
    ensures Decoded(t, Encoded(ReverseTable(t), s), 0, |s|) == s <==> forall i | 0 <= i < |s| :: ComesBack(t, s[i])
  {
    var back := Decoded(t, Encoded(ReverseTable(t), s), 0, |s|);
    forall i | 0 <= i < |s| ensures back[i] == s[i] <==> ComesBack(t, s[i]) {
      UnitRoundTripIff(t, s[i]);
      assert Encoded(ReverseTable(t), s)[i] == EncodeUnit(ReverseTable(t), s[i]);
    }
    if back == s {
      assert forall i | 0 <= i < |s| :: back[i] == s[i];
    }
  }

  // ---- UTF-16 ----

  function Utf16At(buf: seq<Byte>, at: nat): (u: Unit) {
    At(buf, at) * 256 + At(buf, at + 1)
  }

  function Utf16Decoded(buf: seq<Byte>, offset: nat, count: nat): (s: seq<Unit>)
  {
    seq(count, i requires 0 <= i < count => Utf16At(buf, offset + 2 * i))
  }

  function Utf16Encoded(s: seq<Unit>): (b: seq<Byte>)
  {
    seq(2 * |s|, k requires 0 <= k < 2 * |s| => ByteOf(s, k))
  }

  method Utf16ToString(buf: seq<Byte>, offset: nat, length: Option<int>) returns (s: seq<Unit>)
    ensures var len := if length.Some? then length.value else |buf| - offset;
            s == Utf16Decoded(buf, offset, if len < 0 then 0 else len / 2)
  {
    var len := if length.Some? then length.value else |buf| - offset;
    var charCount := len / 2;
    if charCount <= 0 {
      return [];
    }
    if charCount <= CHUNK {
      s := Utf16Range(buf, offset, 0, charCount);
      return;
    }
    s := [];
    var start := 0;
    while start < charCount
      invariant 0 <= start && s == Utf16Decoded(buf, offset, if start <= charCount then start else charCount)
    {
      var end := if start + CHUNK < charCount then start + CHUNK else charCount;
      var chars := Utf16Range(buf, offset, start, end);
      Utf16Joins(buf, offset, start, end);
      s := s + chars;
      start := start + CHUNK;
    }
  }

  method Utf16Range(buf: seq<Byte>, offset: nat, start: nat, end: nat) returns (chars: seq<Unit>)
    requires start <= end
    ensures chars == Utf16Decoded(buf, offset + 2 * start, end - start)
  {
    chars := [];
    for i := start to end
      invariant chars == Utf16Decoded(buf, offset + 2 * start, i - start)
    {
      var o := offset + 2 * i;
      chars := chars + [Utf16At(buf, o)];
    }
  }

  lemma Utf16Joins(buf: seq<Byte>, offset: nat, start: nat, end: nat)
    requires start <= end
    ensures Utf16Decoded(buf, offset, start) + Utf16Decoded(buf, offset + 2 * start, end - start) == Utf16Decoded(buf, offset, end)
  {
    hide Utf16At;
  }

  method Utf16FromString(str: seq<Unit>) returns (buf: array<Byte>)
    ensures fresh(buf) && buf[..] == Utf16Encoded(str)
  {
    buf := new Byte[|str| * 2];
    for i := 0 to |str|
      invariant forall k | 0 <= k < 2 * i :: buf[k] == ByteOf(str, k)
    {
      var code := str[i];
      buf[i * 2] := code / 256;
      buf[i * 2 + 1] := code % 256;
    }
  }

  /** Two bytes a code unit, the high one first. */
  lemma Utf16Denotes(s: seq<Unit>, k: nat)
    requires k < |s|
    ensures |Utf16Encoded(s)| == 2 * |s|
    ensures BigEndian(Utf16Encoded(s)[2 * k..2 * k + 2]) == s[k]
  {
    var b := Utf16Encoded(s);
    BigEndianOfTwo(b[2 * k], b[2 * k + 1]);
    assert b[2 * k..2 * k + 2] == [b[2 * k], b[2 * k + 1]];
  }

  /** Every sequence of code units comes back, wherever its bytes stand. */
  lemma Utf16RoundTrip(pre: seq<Byte>, s: seq<Unit>, post: seq<Byte>)
    ensures Utf16Decoded(pre + Utf16Encoded(s) + post, |pre|, |s|) == s
  {
    hide Utf16At;
    var buf := pre + Utf16Encoded(s) + post;
    forall i | 0 <= i < |s| ensures Utf16At(buf, |pre| + 2 * i) == s[i] {
      UnitInside(pre, s, post, i);
    }
  }

  lemma UnitInside(pre: seq<Byte>, s: seq<Unit>, post: seq<Byte>, i: nat)
    requires i < |s|
    ensures Utf16At(pre + Utf16Encoded(s) + post, |pre| + 2 * i) == s[i]
  {
    var b := Utf16Encoded(s);
    assert At(pre + b + post, |pre| + 2 * i) == b[2 * i] == ByteOf(s, 2 * i);
    assert At(pre + b + post, |pre| + 2 * i + 1) == b[2 * i + 1] == ByteOf(s, 2 * i + 1);
    assert 2 * i / 2 == i && (2 * i + 1) / 2 == i;
  }
}
