/** The string operations the chatbot relies on: Python's `str.lower()`,
    `str.strip()`, the substring test `sub in s`, and slicing `s[:n]`. */
module Text {

  /** Python's `str.isspace()` for a single character: exactly the characters
      that `str.strip()` with no argument removes. */
  predicate IsSpace(c: char) {
    var n := c as int;
    || n == 0x20
    || 0x09 <= n <= 0x0D
    || 0x1C <= n <= 0x1F
    || n == 0x85
    || n == 0xA0
    || n == 0x1680
    || 0x2000 <= n <= 0x200A
    || n == 0x2028
    || n == 0x2029
    || n == 0x202F
    || n == 0x205F
    || n == 0x3000
  }

  /** The characters `str.lower()` turns into a single ASCII letter: `A`-`Z`
      and the Kelvin sign U+212A, which becomes `k`. */
  predicate IsUpper(c: char) {
    'A' <= c <= 'Z' || c == '\U{212A}'
  }

  /** Lower-cases one character: an ASCII capital becomes its small letter,
      the Kelvin sign becomes `k`, and every other character stays. */
  function LowerChar(c: char): (r: char)
    ensures !IsUpper(r)
    ensures IsSpace(r) <==> IsSpace(c)
    ensures !IsUpper(c) ==> r == c
    ensures IsUpper(c) ==> 'a' <= r <= 'z'
    ensures 'A' <= c <= 'Z' ==> r as int == c as int + 32
    ensures c == '\U{212A}' ==> r == 'k'
  {
    if 'A' <= c <= 'Z' then (c as int + 32) as char
    else if c == '\U{212A}' then 'k'
    else c
  }

  /** `s.lower()` character by character, with no upper-case letter left. */
  function Lower(s: string): (r: string)
    ensures |r| == |s|
    ensures forall i :: 0 <= i < |s| ==> r[i] == LowerChar(s[i])
    ensures forall i :: 0 <= i < |r| ==> !IsUpper(r[i])
  {
    if s == [] then [] else [LowerChar(s[0])] + Lower(s[1..])
  }

  /** Lower-casing twice is lower-casing once. */
  lemma {:induction false} LowerIdempotent(s: string)
    ensures Lower(Lower(s)) == Lower(s)
  {
    if s != [] {
      LowerIdempotent(s[1..]);
      assert Lower(s) == [LowerChar(s[0])] + Lower(s[1..]);
      assert Lower(s)[1..] == Lower(s[1..]);
      assert LowerChar(LowerChar(s[0])) == LowerChar(s[0]);
    }
  }

  /** `sub` occurs in `s` starting at index `i`. */
  predicate OccursAt(s: string, sub: string, i: int) {
    0 <= i && i + |sub| <= |s| && s[i..i + |sub|] == sub
  }

  /** Lower-casing keeps every occurrence of a word with no upper-case
      letter in it, at the same place. */
  lemma LowerKeepsOccurrence(s: string, sub: string, i: int)
    requires forall k :: 0 <= k < |sub| ==> !IsUpper(sub[k])
    requires OccursAt(s, sub, i)
    ensures OccursAt(Lower(s), sub, i)
  {
    forall k | 0 <= k < |sub|
      ensures Lower(s)[i + k] == sub[k]
    {
      assert s[i + k] == s[i..i + |sub|][k];
    }
  }

  /** Occurrences in `s[1..]` are the occurrences in `s` shifted by one. */
  lemma OccursInTail(s: string, sub: string)
    requires |s| > 0
    ensures (exists i :: OccursAt(s, sub, i)) <==>
            (OccursAt(s, sub, 0) || exists j :: OccursAt(s[1..], sub, j))
  {
    forall j | OccursAt(s[1..], sub, j)
      ensures OccursAt(s, sub, j + 1)
    {
      assert s[1..][j..j + |sub|] == s[j + 1..j + 1 + |sub|];
    }
    forall i | OccursAt(s, sub, i) && i > 0
      ensures OccursAt(s[1..], sub, i - 1)
    {
      assert s[1..][i - 1..i - 1 + |sub|] == s[i..i + |sub|];
    }
  }

  /** Python's substring test `sub in s`, scanning `s` from the left. The
      empty string occurs in every string, as in Python. */
  function Contains(s: string, sub: string): (b: bool)
    ensures b <==> exists i :: OccursAt(s, sub, i)
    decreases |s|
  {
    if |sub| <= |s| && s[..|sub|] == sub then
      assert OccursAt(s, sub, 0);
      true
    else if s == [] then
      false
    else
      OccursInTail(s, sub);
      Contains(s[1..], sub)
  }

  /** `sub` does not occur in `s` when its character at index `m` appears
      nowhere in `s` from index `m` on (an occurrence at `i` would put it at
      `i + m`). */
  lemma AbsentCharExcludes(s: string, sub: string, m: nat)
    requires m < |sub|
    requires forall k :: m <= k < |s| ==> s[k] != sub[m]
    ensures !Contains(s, sub)
  {
    forall i | 0 <= i <= |s| - |sub|
      ensures !OccursAt(s, sub, i)
    {
      assert s[i..i + |sub|][m] == s[i + m];
    }
  }

  /** Python's `any(word in s for word in words)`. */
  predicate ContainsAny(s: string, words: seq<string>) {
    exists w :: w in words && Contains(s, w)
  }

  /** The index of the first non-space of `s` at or after `i`, or `|s|`. */
  function SkipSpacesFrom(s: string, i: nat): (n: nat)
    requires i <= |s|
    ensures i <= n <= |s|
    ensures forall k :: i <= k < n ==> IsSpace(s[k])
    ensures n == |s| || !IsSpace(s[n])
    decreases |s| - i
  {
    if i < |s| && IsSpace(s[i]) then SkipSpacesFrom(s, i + 1) else i
  }

  /** The index just past the last non-space of `s` before `j`, or 0. */
  function SkipSpacesBefore(s: string, j: nat): (n: nat)
    requires j <= |s|
    ensures n <= j
    ensures forall k :: n <= k < j ==> IsSpace(s[k])
    ensures n == 0 || !IsSpace(s[n - 1])
  {
    if j > 0 && IsSpace(s[j - 1]) then SkipSpacesBefore(s, j - 1) else j
  }

  /** Every character of `s` is whitespace (so `s.strip()` is empty). */
  predicate AllSpace(s: string) {
    forall i :: 0 <= i < |s| ==> IsSpace(s[i])
  }

  /** `r` is `s` with the whitespace at both ends removed: `r` occurs in `s`
      with only whitespace around it, and `r` neither starts nor ends with
      whitespace. */
  ghost predicate IsStripOf(r: string, s: string) {
    && (r == [] || (!IsSpace(r[0]) && !IsSpace(r[|r| - 1])))
    && exists i :: && OccursAt(s, r, i)
                   && (forall k :: 0 <= k < i ==> IsSpace(s[k]))
                   && (forall k :: i + |r| <= k < |s| ==> IsSpace(s[k]))
  }

  /** A concatenation is all whitespace exactly when both parts are. */
  lemma AllSpaceConcat(a: string, b: string)
    ensures AllSpace(a + b) <==> AllSpace(a) && AllSpace(b)
  {
    if AllSpace(a + b) {
      forall i | 0 <= i < |a|
        ensures IsSpace(a[i])
      {
        assert (a + b)[i] == a[i];
      }
      forall i | 0 <= i < |b|
        ensures IsSpace(b[i])
      {
        assert (a + b)[|a| + i] == b[i];
      }
    }
  }

  /** `s.strip()`: the part of `s` left once the whitespace at both ends is
      removed. It is empty exactly when `s` is all whitespace; otherwise it
      starts and ends with a non-space, and everything cut off is whitespace. */
  function Strip(s: string): (r: string)
    ensures r == [] <==> AllSpace(s)
    ensures IsStripOf(r, s)
  {
    var i := SkipSpacesFrom(s, 0);
    var j := SkipSpacesBefore(s, |s|);
    assert i < |s| ==> !IsSpace(s[i]) && i < j;
    if i < j then
      assert OccursAt(s, s[i..j], i);
      s[i..j]
    else
      assert OccursAt(s, [], i);
      []
  }

  /** The specification of `strip()` determines its result: only one string
      is `s` with the whitespace at both ends removed, and it is empty
      exactly when `s` is all whitespace. */
  lemma StripIsUnique(r1: string, r2: string, s: string)
    requires IsStripOf(r1, s) && IsStripOf(r2, s)
    ensures r1 == r2
    ensures r1 == [] <==> AllSpace(s)
  {
    var i1 :| && OccursAt(s, r1, i1)
              && (forall k :: 0 <= k < i1 ==> IsSpace(s[k]))
              && (forall k :: i1 + |r1| <= k < |s| ==> IsSpace(s[k]));
    var i2 :| && OccursAt(s, r2, i2)
              && (forall k :: 0 <= k < i2 ==> IsSpace(s[k]))
              && (forall k :: i2 + |r2| <= k < |s| ==> IsSpace(s[k]));
    StripSpan(r1, s, i1);
    StripSpan(r2, s, i2);
    if r1 != [] && r2 != [] {
      StripBounds(r1, r2, s, i1, i2);
      StripBounds(r2, r1, s, i2, i1);
    }
  }

  /** A stripped part is empty exactly when everything is whitespace. */
  lemma StripSpan(r: string, s: string, i: int)
    requires r == [] || (!IsSpace(r[0]) && !IsSpace(r[|r| - 1]))
    requires OccursAt(s, r, i)
    requires forall k :: 0 <= k < i ==> IsSpace(s[k])
    requires forall k :: i + |r| <= k < |s| ==> IsSpace(s[k])
    ensures r == [] <==> AllSpace(s)
  {
    if r != [] {
      assert s[i] == r[0];
    }
  }

  /** Two non-empty stripped parts start and end at the same places. */
  lemma StripBounds(r1: string, r2: string, s: string, i1: int, i2: int)
    requires r1 != [] && !IsSpace(r1[0]) && !IsSpace(r1[|r1| - 1])
    requires r2 != [] && !IsSpace(r2[0]) && !IsSpace(r2[|r2| - 1])
    requires OccursAt(s, r1, i1) && OccursAt(s, r2, i2)
    requires forall k :: 0 <= k < i1 ==> IsSpace(s[k])
    requires forall k :: i1 + |r1| <= k < |s| ==> IsSpace(s[k])
    requires forall k :: 0 <= k < i2 ==> IsSpace(s[k])
    requires forall k :: i2 + |r2| <= k < |s| ==> IsSpace(s[k])
    ensures i1 == i2 && |r1| == |r2| && r1 == r2
  {
    assert s[i1] == r1[0] && s[i2] == r2[0];
    assert s[i1 + |r1| - 1] == r1[|r1| - 1];
    assert s[i2 + |r2| - 1] == r2[|r2| - 1];
  }

  /** Python's slice `s[:n]` for a non-negative `n`: the first `n` characters,
      or all of `s` when it is shorter. */
  function Take(s: string, n: nat): (r: string)
    ensures |r| <= n && |r| <= |s|
    ensures |r| == n || r == s
    ensures r == s[..|r|]
  {
    if |s| <= n then s else s[..n]
  }
}
