/** The string operations the parsers share: search, trimming, upper-casing. */
module Text {

  predicate MatchesAt(s: string, t: string, i: nat) {
    i + |t| <= |s| && s[i..i + |t|] == t
  }

  /** `s.indexOf(t, from)` for a non-empty `t`: the first match at or behind `from`, or -1. */
  function IndexOf(s: string, t: string, from: nat): (k: int)
    ensures k == -1 <==> forall i: nat | from <= i :: !MatchesAt(s, t, i)
    ensures k != -1 ==> from <= k && MatchesAt(s, t, k) && forall i: nat | from <= i < k :: !MatchesAt(s, t, i)
    decreases |s| - from
  {
    if from + |t| > |s| then -1
    else if MatchesAt(s, t, from) then from
    else IndexOf(s, t, from + 1)
  }

  /** `s.lastIndexOf(t, from)`: the last match at or before `from`, or -1. */
  function LastIndexOf(s: string, t: string, from: nat): (k: int)
    ensures k == -1 <==> forall i: nat | i <= from :: !MatchesAt(s, t, i)
    ensures k != -1 ==> 0 <= k <= from && MatchesAt(s, t, k) && forall i: nat | k < i <= from :: !MatchesAt(s, t, i)
  {
    if MatchesAt(s, t, from) then from else if from == 0 then -1 else LastIndexOf(s, t, from - 1)
  }

  // ---- Text at a position ----

  lemma MatchesParts(s: string, a: string, b: string, pos: nat)
    requires MatchesAt(s, a + b, pos)
    ensures MatchesAt(s, a, pos) && MatchesAt(s, b, pos + |a|)
  {
    var part := s[pos..pos + |a + b|];
    assert part[..|a|] == a && part[|a|..] == b;
    assert part[..|a|] == s[pos..pos + |a|] && part[|a|..] == s[pos + |a|..pos + |a| + |b|];
  }

  lemma MatchesChar(s: string, t: string, pos: nat, i: nat)
    requires MatchesAt(s, t, pos) && i < |t|
    ensures pos + i < |s| && s[pos + i] == t[i]
  {
    assert s[pos..pos + |t|][i] == t[i];
  }

  lemma NoMatch(s: string, t: string, pos: nat, i: nat)
    requires i < |t| && pos + i < |s| && s[pos + i] != t[i]
    ensures !MatchesAt(s, t, pos)
  {
    if pos + |t| <= |s| {
      assert s[pos..pos + |t|][i] == s[pos + i];
    }
  }

  /** The first position of a character, or the length of the string. */
  function Find(s: string, c: char): (k: nat)
    ensures k <= |s|
    ensures forall i | 0 <= i < k :: s[i] != c
    ensures k < |s| ==> s[k] == c
  {
    if s == [] || s[0] == c then 0 else 1 + Find(s[1..], c)
  }

  lemma {:induction false} FindAfter(front: string, c: char, rest: string)
    requires c !in front && (rest == [] || rest[0] == c)
    ensures Find(front + rest, c) == |front|
  {
    if front == [] {
      assert front + rest == rest;
    } else {
      assert (front + rest)[1..] == front[1..] + rest;
      FindAfter(front[1..], c, rest);
    }
  }

  /** The characters `String.prototype.trim` removes. */
  predicate IsSpace(c: char) {
    var u := c as int;
    9 <= u <= 13 || u == 32 || u == 0xA0 || u == 0x1680 || 0x2000 <= u <= 0x200A
    || u == 0x2028 || u == 0x2029 || u == 0x202F || u == 0x205F || u == 0x3000 || u == 0xFEFF
  }

  function TrimStart(s: string): (r: string)
    ensures |r| <= |s| && (r == [] || !IsSpace(r[0]))
  {
    if s != [] && IsSpace(s[0]) then TrimStart(s[1..]) else s
  }

  function TrimEnd(s: string): (r: string)
    ensures |r| <= |s| && (r == [] || !IsSpace(r[|r| - 1]))
  {
    if s != [] && IsSpace(s[|s| - 1]) then TrimEnd(s[..|s| - 1]) else s
  }

  /** `s.trim()`. */
  function Trim(s: string): (r: string) {
    TrimEnd(TrimStart(s))
  }

  predicate IsTrimmed(s: string) {
    s == [] || (!IsSpace(s[0]) && !IsSpace(s[|s| - 1]))
  }

  /** Trimming leaves exactly the trimmed strings alone. */
  lemma TrimKeeps(s: string)
    ensures Trim(s) == s <==> IsTrimmed(s)
  {
    if s != [] && IsSpace(s[0]) {
      assert |TrimStart(s)| < |s|;
    }
  }

  /** Upper-casing of the letters `a` to `z`. */
  function UpperChar(c: char): (r: char) {
    if 'a' <= c <= 'z' then (c as int - 32) as char else c
  }

  function Upper(s: string): (r: string)
    ensures |r| == |s|
    ensures forall i | 0 <= i < |s| :: r[i] == UpperChar(s[i])
  {
    seq(|s|, i requires 0 <= i < |s| => UpperChar(s[i]))
  }

  predicate IsUpper(s: string) {
    forall i | 0 <= i < |s| :: !('a' <= s[i] <= 'z')
  }

  /** Upper-casing is idempotent: exactly the strings without small letters stay as they are. */
  lemma UpperKeeps(s: string)
    ensures Upper(s) == s <==> IsUpper(s)
    ensures IsUpper(Upper(s))
  {
    if Upper(s) == s {
      forall i | 0 <= i < |s| ensures !('a' <= s[i] <= 'z') {
        assert Upper(s)[i] == s[i];
      }
    }
  }
}
