/** String operations the path utilities rely on: Python's `sub in s`, suffix
    tests, `str.rfind` for a single character and `str.rstrip` for a single
    character. Strings are sequences of Unicode scalar values. */
module Strings {

  /** `pre` is a prefix of `s`. */
  predicate IsPrefix(pre: string, s: string) {
    |pre| <= |s| && s[..|pre|] == pre
  }

  /** `s` ends with `suf`. */
  predicate EndsWith(s: string, suf: string) {
    |suf| <= |s| && s[|s| - |suf|..] == suf
  }

  /** Python's `sub in s` on strings: `sub` occurs in `s` at some position. */
  predicate Contains(s: string, sub: string)
    decreases |s|
  {
    IsPrefix(sub, s) || (s != [] && Contains(s[1..], sub))
  }

  /** Every character of `s` is `c`. */
  predicate AllChar(s: string, c: char) {
    forall k :: 0 <= k < |s| ==> s[k] == c
  }

  /** Python's `s.rfind(c)` for a single character: the index of the last `c`,
      or -1 when `s` has none. */
  function LastIndexOf(s: string, c: char): (r: int)
    ensures -1 <= r < |s|
    ensures 0 <= r ==> s[r] == c
    ensures forall k :: r < k < |s| ==> s[k] != c
  {
    if s == [] then -1
    else if s[|s| - 1] == c then |s| - 1
    else LastIndexOf(s[..|s| - 1], c)
  }

  /** Python's `s.rstrip(c)` for a single character: `s` without its trailing run of `c`. */
  function RStrip(s: string, c: char): (r: string)
    ensures IsPrefix(r, s)
    ensures forall k :: |r| <= k < |s| ==> s[k] == c
    ensures r == [] || r[|r| - 1] != c
  {
    if s != [] && s[|s| - 1] == c then RStrip(s[..|s| - 1], c) else s
  }

  /** `sub in s` agrees with the positional reading: some window of `s` equals `sub`. */
  lemma {:induction false} ContainsIffOccurs(s: string, sub: string)
    ensures Contains(s, sub) <==> exists i :: 0 <= i <= |s| - |sub| && IsPrefix(sub, s[i..])
    decreases |s|
  {
    if Contains(s, sub) {
      if !IsPrefix(sub, s) {
        ContainsIffOccurs(s[1..], sub);
        var i :| 0 <= i <= |s| - 1 - |sub| && IsPrefix(sub, s[1..][i..]);
        assert s[1..][i..] == s[i + 1..];
      } else {
        assert s[0..] == s;
      }
    }
    if exists i :: 0 <= i <= |s| - |sub| && IsPrefix(sub, s[i..]) {
      var i :| 0 <= i <= |s| - |sub| && IsPrefix(sub, s[i..]);
      if i == 0 {
        assert s[0..] == s;
      } else {
        assert s[1..][i - 1..] == s[i..];
        ContainsIffOccurs(s[1..], sub);
      }
    }
  }

  /** A string longer than `s` does not occur in `s`. */
  lemma {:induction false} ContainsTooLong(s: string, sub: string)
    requires |s| < |sub|
    ensures !Contains(s, sub)
    decreases |s|
  {
    if s != [] {
      ContainsTooLong(s[1..], sub);
    }
  }

  /** A string as long as `s` occurs in `s` exactly when it is `s`. */
  lemma ContainsSameLength(s: string, sub: string)
    requires |s| == |sub|
    ensures Contains(s, sub) <==> s == sub
  {
    if s != [] {
      ContainsTooLong(s[1..], sub);
    }
    assert s[..|sub|] == s;
  }

  /** A strip that removes exactly one character: `s` ends in one `c` preceded by another character. */
  lemma RStripOne(s: string, c: char)
    requires 2 <= |s| && s[|s| - 1] == c && s[|s| - 2] != c
    ensures RStrip(s, c) == s[..|s| - 1]
  {
  }

  /** The result of `rfind` is determined by its contract. */
  lemma LastIndexOfUnique(s: string, c: char, k: int)
    requires -1 <= k < |s|
    requires 0 <= k ==> s[k] == c
    requires forall j :: k < j < |s| ==> s[j] != c
    ensures LastIndexOf(s, c) == k
  {
  }
}
