/**
 * The few Python string operations the converter and the sanitisers rely on:
 * `''.join`, `s * n`, `startswith`, `in`, `replace`, ASCII `lower()`, `strip` and `str(int)`.
 */
module Strings {

  /** The characters for which Python's `str.isspace()` holds; `strip()` without
      an argument removes exactly these. */
  const Whitespace: set<char> := {
    '\t', '\n', '\U{000B}', '\U{000C}', '\r',
    '\U{001C}', '\U{001D}', '\U{001E}', '\U{001F}', ' ',
    '\U{0085}', '\U{00A0}', '\U{1680}',
    '\U{2000}', '\U{2001}', '\U{2002}', '\U{2003}', '\U{2004}', '\U{2005}',
    '\U{2006}', '\U{2007}', '\U{2008}', '\U{2009}', '\U{200A}',
    '\U{2028}', '\U{2029}', '\U{202F}', '\U{205F}', '\U{3000}'
  }

  /** `''.join(parts)` */
  function Concat(parts: seq<string>): string
  {
    if parts == [] then "" else parts[0] + Concat(parts[1..])
  }

  lemma {:induction false} ConcatAppend(a: seq<string>, b: seq<string>)
    ensures Concat(a + b) == Concat(a) + Concat(b)
  {
    if a == [] {
      assert a + b == b;
    } else {
      assert (a + b)[1..] == a[1..] + b;
      ConcatAppend(a[1..], b);
    }
  }

  lemma ConcatSnoc(a: seq<string>, s: string)
    ensures Concat(a + [s]) == Concat(a) + s
  {
    ConcatAppend(a, [s]);
    assert Concat([s]) == s + Concat([]);
  }

  /** `s * n`: `n` copies of `s`, and the empty string when `n <= 0`. */
  function Repeat(s: string, n: int): (r: string)
    ensures |r| == if n <= 0 then 0 else n * |s|
    ensures forall i :: 0 <= i < |r| ==> r[i] in s
    decreases n
  {
    if n <= 0 then "" else s + Repeat(s, n - 1)
  }

  /** `s.startswith(prefix)` */
  predicate StartsWith(s: string, prefix: string)
  {
    |prefix| <= |s| && s[..|prefix|] == prefix
  }

  /** `sub in s` */
  predicate Contains(s: string, sub: string)
  {
    exists i :: 0 <= i <= |s| - |sub| && OccursAt(s, sub, i)
  }

  predicate OccursAt(s: string, sub: string, i: int)
    requires 0 <= i <= |s| - |sub|
  {
    s[i..i + |sub|] == sub
  }

  /** `s.replace(pat, rep)`: scanning left to right, each occurrence of `pat`
      that does not overlap an earlier one is written as `rep`; an empty `pat`
      puts `rep` before every character and at the end. */
  function Replace(s: string, pat: string, rep: string): string
    decreases |s|
  {
    if pat == [] then
      if s == [] then rep else rep + [s[0]] + Replace(s[1..], pat, rep)
    else if StartsWith(s, pat) then rep + Replace(s[|pat|..], pat, rep)
    else if s == [] then []
    else [s[0]] + Replace(s[1..], pat, rep)
  }

  /** Replacing one character by one character works character by character. */
  lemma {:induction false} ReplaceOneChar(s: string, c: char, d: char)
    ensures var r := Replace(s, [c], [d]);
      |r| == |s| && forall i :: 0 <= i < |s| ==> r[i] == if s[i] == c then d else s[i]
    decreases |s|
  {
    if s != [] {
      ReplaceOneChar(s[1..], c, d);
      assert StartsWith(s, [c]) <==> s[0] == c by {
        assert s[..1] == [s[0]];
      }
      var t := Replace(s[1..], [c], [d]);
      assert Replace(s, [c], [d]) == [if s[0] == c then d else s[0]] + t;
    }
  }

  /** Text in which `pat` does not occur is left as it is. */
  lemma {:induction false} ReplaceAbsent(s: string, pat: string, rep: string)
    requires pat != [] && !Contains(s, pat)
    ensures Replace(s, pat, rep) == s
    decreases |s|
  {
    if s != [] {
      assert |pat| <= |s| ==> !OccursAt(s, pat, 0);
      assert !StartsWith(s, pat);
      assert !Contains(s[1..], pat) by {
        if Contains(s[1..], pat) {
          var i :| 0 <= i <= |s[1..]| - |pat| && OccursAt(s[1..], pat, i);
          assert s[i + 1..i + 1 + |pat|] == s[1..][i..i + |pat|];
          assert OccursAt(s, pat, i + 1);
        }
      }
      ReplaceAbsent(s[1..], pat, rep);
    }
  }

  /** `c.lower()`, restricted to ASCII letters. */
  function LowerChar(c: char): char
  {
    if 'A' <= c <= 'Z' then (c as int + 32) as char else c
  }

  /** `s.lower()`, restricted to ASCII letters. */
  function Lower(s: string): (r: string)
    ensures |r| == |s|
    ensures forall i :: 0 <= i < |s| ==> r[i] == LowerChar(s[i])
  {
    seq(|s|, i requires 0 <= i < |s| => LowerChar(s[i]))
  }

  /** Where `strip` starts: the first index from `i` on whose character is not
      stripped, or the end. */
  function StripStart(s: string, chars: set<char>, i: nat): (k: nat)
    requires i <= |s|
    ensures i <= k <= |s|
    ensures forall j :: i <= j < k ==> s[j] in chars
    ensures k == |s| || s[k] !in chars
    decreases |s| - i
  {
    if i < |s| && s[i] in chars then StripStart(s, chars, i + 1) else i
  }

  /** Where `strip` ends: the last end at or before `k`, and not before `lo`,
      that follows a character not stripped, or `lo`. */
  function StripEnd(s: string, chars: set<char>, lo: nat, k: nat): (e: nat)
    requires lo <= k <= |s|
    ensures lo <= e <= k
    ensures forall j :: e <= j < k ==> s[j] in chars
    ensures e == lo || s[e - 1] !in chars
    decreases k
  {
    if lo < k && s[k - 1] in chars then StripEnd(s, chars, lo, k - 1) else k
  }

  /** `s.strip(chars)`: the leading characters in `chars` removed, then the
      trailing ones. */
  function Strip(s: string, chars: set<char>): string
  {
    var lo := StripStart(s, chars, 0);
    s[lo..StripEnd(s, chars, lo, |s|)]
  }

  /** What `strip` keeps is a contiguous slice of the input that neither begins
      nor ends with a stripped character, and everything cut off either side is
      made of stripped characters. */
  lemma StripSlice(s: string, chars: set<char>)
    ensures var r := Strip(s, chars); var lo := StripStart(s, chars, 0);
      0 <= lo <= |s| - |r|
        && r == s[lo..lo + |r|]
        && (forall i :: 0 <= i < lo ==> s[i] in chars)
        && (forall i :: lo + |r| <= i < |s| ==> s[i] in chars)
        && (r == [] || (r[0] !in chars && r[|r| - 1] !in chars))
  {
    var lo := StripStart(s, chars, 0);
    var e := StripEnd(s, chars, lo, |s|);
    var r := s[lo..e];
    assert Strip(s, chars) == r;
    if r != [] {
      assert r[0] == s[lo] && r[|r| - 1] == s[e - 1];
    }
  }

  /** What `strip` keeps neither begins nor ends with a stripped character. */
  lemma StripEnds(s: string, chars: set<char>)
    ensures var r := Strip(s, chars); r == [] || (r[0] !in chars && r[|r| - 1] !in chars)
  {
    StripSlice(s, chars);
  }

  /** Every character `strip` keeps occurs in the input. */
  lemma StripFrom(s: string, chars: set<char>)
    ensures forall x :: x in Strip(s, chars) ==> x in s
  {
    var r := Strip(s, chars);
    var lo := StripStart(s, chars, 0);
    StripSlice(s, chars);
    forall x | x in r ensures x in s {
      var i :| 0 <= i < |r| && r[i] == x;
      assert s[lo + i] == x;
    }
  }

  /** A string whose ends are not stripped characters is left as it is. */
  lemma StripUnchanged(s: string, chars: set<char>)
    requires s == [] || (s[0] !in chars && s[|s| - 1] !in chars)
    ensures Strip(s, chars) == s
  {
    assert StripStart(s, chars, 0) == 0;
    assert StripEnd(s, chars, 0, |s|) == |s|;
    assert s[0..|s|] == s;
  }

  /** Stripping twice is stripping once. */
  lemma StripIdempotent(s: string, chars: set<char>)
    ensures Strip(Strip(s, chars), chars) == Strip(s, chars)
  {
    StripSlice(s, chars);
    StripUnchanged(Strip(s, chars), chars);
  }

  /** Characters that `strip` keeps are characters of the input. */
  lemma StripKeeps(s: string, chars: set<char>, bad: set<char>)
    requires forall i :: 0 <= i < |s| ==> s[i] !in bad
    ensures var r := Strip(s, chars); forall i :: 0 <= i < |r| ==> r[i] !in bad
  {
    StripSlice(s, chars);
  }

  /** `str(n)` for a natural number. */
  function NatToString(n: nat): (r: string)
    ensures |r| >= 1
    ensures forall i :: 0 <= i < |r| ==> '0' <= r[i] <= '9'
    ensures r[0] == '0' <==> n == 0
  {
    if n < 10 then [('0' as int + n) as char]
    else NatToString(n / 10) + [('0' as int + n % 10) as char]
  }

  /** The number a string of decimal digits reads as. */
  function DigitsValue(s: string): int
  {
    if s == [] then 0 else 10 * DigitsValue(s[..|s| - 1]) + (s[|s| - 1] as int - '0' as int)
  }

  /** `str(n)` reads back as `n`. */
  lemma {:induction false} NatToStringValue(n: nat)
    ensures DigitsValue(NatToString(n)) == n
  {
    if n >= 10 {
      NatToStringValue(n / 10);
      var r := NatToString(n);
      assert r[..|r| - 1] == NatToString(n / 10);
    }
  }
}
