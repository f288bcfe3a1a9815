/** The handful of JavaScript string operations the converter relies on,
    over `seq<char>`. Case mapping is ASCII only. */
module Strings {

  /** `toLowerCase` on one character, for the ASCII letters. */
  function LowerChar(c: char): char {
    if 'A' <= c <= 'Z' then (c as int + 32) as char else c
  }

  function Lower(s: string): (r: string)
    ensures |r| == |s|
    ensures forall i :: 0 <= i < |s| ==> r[i] == LowerChar(s[i])
  {
    seq(|s|, i requires 0 <= i < |s| => LowerChar(s[i]))
  }

  /** Characters that lower-casing never produces from anything else. */
  lemma LowerKeepsPunctuation(s: string, i: int)
    requires 0 <= i < |s|
    ensures Lower(s)[i] == '.' <==> s[i] == '.'
    ensures Lower(s)[i] == '/' <==> s[i] == '/'
  {
  }

  lemma LowerOfLowercase(s: string)
    requires forall i :: 0 <= i < |s| ==> !('A' <= s[i] <= 'Z')
    ensures Lower(s) == s
  {
  }

  /** A lower-case ending survives lower-casing the whole string. */
  lemma LowerKeepsSuffix(s: string, t: string)
    requires EndsWith(s, t) && Lower(t) == t
    ensures EndsWith(Lower(s), t)
  {
    var k := |s| - |t|;
    forall i | 0 <= i < |t| ensures Lower(s)[k + i] == t[i] {
      assert s[k + i] == s[k..][i] == t[i];
      assert Lower(t)[i] == LowerChar(t[i]);
    }
    assert Lower(s)[k..] == t;
  }

  predicate StartsWith(s: string, prefix: string) {
    |prefix| <= |s| && s[..|prefix|] == prefix
  }

  predicate EndsWith(s: string, suffix: string) {
    |suffix| <= |s| && s[|s| - |suffix|..] == suffix
  }

  predicate OccursAt(s: string, p: string, i: int) {
    0 <= i <= |s| - |p| && s[i..i + |p|] == p
  }

  /** `s.includes(p)`. */
  predicate Contains(s: string, p: string) {
    exists i | 0 <= i <= |s| :: OccursAt(s, p, i)
  }

  /** A pattern is absent when no position of `s` starts with its first two
      characters. */
  lemma AbsentByPrefix(s: string, p: string)
    requires |p| >= 2
    requires forall i :: 0 <= i <= |s| - |p| ==> s[i] != p[0] || s[i + 1] != p[1]
    ensures !Contains(s, p)
  {
    forall i | 0 <= i <= |s| ensures !OccursAt(s, p, i) {
      if i <= |s| - |p| {
        assert s[i..i + |p|][0] == s[i] && s[i..i + |p|][1] == s[i + 1];
      }
    }
  }

  /** `parts.join(sep)`. */
  function Join(parts: seq<string>, sep: string): string {
    if parts == [] then ""
    else if |parts| == 1 then parts[0]
    else parts[0] + sep + Join(parts[1..], sep)
  }
}
