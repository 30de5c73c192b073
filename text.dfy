/**
 * The small amount of string handling the data preparation relies on: decimal
 * numerals as Python's int() and str() read and write them, the leftmost
 * occurrence of a literal (re.search on a literal prefix, the `in`
 * operator) and str.replace.
 */
module Text {
  import opened Wrappers

  predicate IsDigit(c: char) { '0' <= c <= '9' }

  predicate AllDigits(s: string) { forall i :: 0 <= i < |s| ==> IsDigit(s[i]) }

  /** Value of an ASCII decimal numeral, as int() reads it (leading zeros allowed). */
  function DigitsValue(s: string): nat
    requires AllDigits(s)
  {
    if s == [] then 0 else 10 * DigitsValue(s[..|s| - 1]) + (s[|s| - 1] as int - '0' as int)
  }

  function Pow10(n: nat): nat
  {
    if n == 0 then 1 else 10 * Pow10(n - 1)
  }

  /** A numeral of n digits is below 10^n. */
  lemma {:induction false} DigitsValueBound(s: string)
    requires AllDigits(s)
    ensures DigitsValue(s) < Pow10(|s|)
  {
    if s != [] {
      DigitsValueBound(s[..|s| - 1]);
    }
  }

  function DigitChar(d: int): (c: char)
    requires 0 <= d <= 9
    ensures IsDigit(c) && c as int - '0' as int == d
  {
    ('0' as int + d) as char
  }

  /** str() of a non-negative int: decimal, no sign, no leading zero. */
  function NatToString(n: nat): (s: string)
    ensures |s| > 0 && AllDigits(s)
    ensures |s| > 1 ==> s[0] != '0'
  {
    if n < 10 then [DigitChar(n)] else NatToString(n / 10) + [DigitChar(n % 10)]
  }

  /** str() of any int. */
  function IntToString(n: int): string
  {
    if n < 0 then "-" + NatToString(-n) else NatToString(n)
  }

  /** int(str(n)) == n. */
  lemma {:induction false} NatToStringValue(n: nat)
    ensures DigitsValue(NatToString(n)) == n
  {
    if n >= 10 {
      NatToStringValue(n / 10);
      var s := NatToString(n);
      assert s[..|s| - 1] == NatToString(n / 10);
    }
  }

  /** The maximal run of digits at the start of s (what `[0-9]*` matches greedily). */
  function LeadingDigits(s: string): (r: string)
    ensures |r| <= |s| && r == s[..|r|] && AllDigits(r)
    ensures |r| < |s| ==> !IsDigit(s[|r|])
  {
    if s != [] && IsDigit(s[0]) then [s[0]] + LeadingDigits(s[1..]) else []
  }

  lemma {:induction false} LeadingDigitsOfNumeral(d: string, rest: string)
    requires AllDigits(d)
    requires rest == [] || !IsDigit(rest[0])
    ensures LeadingDigits(d + rest) == d
  {
    if d != [] {
      assert (d + rest)[1..] == d[1..] + rest;
      LeadingDigitsOfNumeral(d[1..], rest);
    } else {
      assert d + rest == rest;
    }
  }

  predicate MatchAt(s: string, pat: string, i: int)
  {
    0 <= i && i + |pat| <= |s| && s[i..i + |pat|] == pat
  }

  /** Python's `pat in s`. */
  predicate Contains(s: string, pat: string)
  {
    exists i :: 0 <= i <= |s| - |pat| && MatchAt(s, pat, i)
  }

  function FindFrom(s: string, pat: string, i: nat): (r: Option<nat>)
    requires i <= |s|
    ensures r.Some? ==> i <= r.value && MatchAt(s, pat, r.value)
    ensures r.Some? ==> forall j :: i <= j < r.value ==> !MatchAt(s, pat, j)
    ensures r.None? ==> forall j :: i <= j ==> !MatchAt(s, pat, j)
    decreases |s| - i
  {
    if i + |pat| > |s| then None
    else if s[i..i + |pat|] == pat then Some(i)
    else FindFrom(s, pat, i + 1)
  }

  /** Index of the leftmost occurrence of pat in s, as re.search finds it. */
  function Find(s: string, pat: string): (r: Option<nat>)
    ensures r.None? <==> !Contains(s, pat)
    ensures r.Some? ==> MatchAt(s, pat, r.value) && forall j :: 0 <= j < r.value ==> !MatchAt(s, pat, j)
  {
    FindFrom(s, pat, 0)
  }

  /** The leftmost occurrence is pinned down by a match and the absence of earlier ones. */
  lemma FindAt(s: string, pat: string, k: nat)
    requires MatchAt(s, pat, k)
    requires forall j :: 0 <= j < k ==> !MatchAt(s, pat, j)
    ensures Find(s, pat) == Some(k)
  {
    assert Contains(s, pat);
    var r := Find(s, pat);
    assert !(r.value > k);
  }

  /**
   * No occurrence of pat starts inside a when a ends in '_', pat has no '_'
   * before its last character, and a itself holds no occurrence.
   */
  lemma NoMatchStartingIn(a: string, b: string, pat: string)
    requires |pat| > 0 && !Contains(a, pat)
    requires |a| > 0 && a[|a| - 1] == '_'
    requires forall k :: 0 <= k < |pat| - 1 ==> pat[k] != '_'
    ensures forall i :: 0 <= i < |a| ==> !MatchAt(a + b, pat, i)
  {
    forall i | 0 <= i < |a| ensures !MatchAt(a + b, pat, i) {
      if i + |pat| <= |a| {
        assert (a + b)[i..i + |pat|] == a[i..i + |pat|];
        assert !MatchAt(a, pat, i);
      } else if i + |pat| <= |a + b| {
        var k := |a| - 1 - i;
        assert (a + b)[i..i + |pat|][k] == '_' != pat[k];
      }
    }
  }

  /** A literal that begins with a character absent from s never occurs in s. */
  lemma NoMatchWithoutFirstChar(s: string, pat: string)
    requires |pat| > 0 && forall k :: 0 <= k < |s| ==> s[k] != pat[0]
    ensures !Contains(s, pat)
  {
    forall i | 0 <= i <= |s| - |pat| ensures !MatchAt(s, pat, i) {
      assert s[i..i + |pat|][0] == s[i] != pat[0];
    }
  }

  /** No occurrence in a + b when a ends in '_' and b lacks pat's first character. */
  lemma NoMatchInConcat(a: string, b: string, pat: string)
    requires |pat| > 0 && !Contains(a, pat)
    requires |a| > 0 && a[|a| - 1] == '_'
    requires forall k :: 0 <= k < |pat| - 1 ==> pat[k] != '_'
    requires forall k :: 0 <= k < |b| ==> b[k] != pat[0]
    ensures !Contains(a + b, pat)
  {
    NoMatchStartingIn(a, b, pat);
    forall i | |a| <= i <= |a + b| - |pat| ensures !MatchAt(a + b, pat, i) {
      assert (a + b)[i..i + |pat|][0] == b[i - |a|] != pat[0];
    }
  }

  /** No occurrence in a + b when neither part has one and b begins with a character not in pat. */
  lemma NoMatchAcrossSeparator(a: string, b: string, pat: string)
    requires |pat| > 0 && !Contains(a, pat) && !Contains(b, pat)
    requires |b| > 0 && forall k :: 0 <= k < |pat| ==> pat[k] != b[0]
    ensures !Contains(a + b, pat)
  {
    forall i | 0 <= i <= |a + b| - |pat| ensures !MatchAt(a + b, pat, i) {
      if i + |pat| <= |a| {
        assert (a + b)[i..i + |pat|] == a[i..i + |pat|];
        assert !MatchAt(a, pat, i);
      } else if i < |a| {
        assert (a + b)[i..i + |pat|][|a| - i] == b[0] != pat[|a| - i];
      } else {
        assert (a + b)[i..i + |pat|] == b[i - |a|..i - |a| + |pat|];
        assert !MatchAt(b, pat, i - |a|);
      }
    }
  }

  /** Python's s.replace(target, replacement): every non-overlapping occurrence, left to right. */
  function ReplaceAll(s: string, target: string, replacement: string): string
    requires |target| > 0
    decreases |s|
  {
    if |s| < |target| then s
    else if s[..|target|] == target then replacement + ReplaceAll(s[|target|..], target, replacement)
    else [s[0]] + ReplaceAll(s[1..], target, replacement)
  }

  /** Replacing a literal that occurs in s + target only as its final part rewrites exactly that part. */
  lemma {:induction false} ReplaceAllAtEnd(s: string, target: string, replacement: string)
    requires |target| > 0
    requires forall i :: 0 <= i < |s| ==> !MatchAt(s + target, target, i)
    ensures ReplaceAll(s + target, target, replacement) == s + replacement
  {
    if s == [] {
      assert s + target == target;
      assert target[|target|..] == [];
    } else {
      var t := s + target;
      assert !MatchAt(t, target, 0);
      assert t[1..] == s[1..] + target;
      ShiftedNoMatch(s, target);
      ReplaceAllAtEnd(s[1..], target, replacement);
      assert ReplaceAll(t, target, replacement) == [t[0]] + ReplaceAll(t[1..], target, replacement);
    }
  }

  /** Dropping the first character keeps the absence of matches before the appended target. */
  lemma ShiftedNoMatch(s: string, target: string)
    requires s != []
    requires forall i :: 0 <= i < |s| ==> !MatchAt(s + target, target, i)
    ensures forall i :: 0 <= i < |s[1..]| ==> !MatchAt(s[1..] + target, target, i)
  {
    forall i | 0 <= i < |s[1..]| ensures !MatchAt(s[1..] + target, target, i) {
      assert !MatchAt(s + target, target, i + 1);
      assert (s + target)[i + 1..i + 1 + |target|] == (s[1..] + target)[i..i + |target|];
    }
  }

  // ---------------------------------------------------------------- paths

  predicate EndsWithSlash(s: string)
  {
    |s| > 0 && s[|s| - 1] == '/'
  }

  /** `d if d.endswith('/') else f'{d}/'`: the directory with one separator at its end. */
  function WithSlash(dir: string): (r: string)
    ensures EndsWithSlash(r) && dir <= r && |r| <= |dir| + 1
    ensures EndsWithSlash(dir) ==> r == dir
  {
    if EndsWithSlash(dir) then dir else dir + "/"
  }
}
