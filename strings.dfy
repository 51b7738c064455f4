/**
 * The Foundation string operations the client relies on, written out so that
 * their results can be reasoned about: substring search (`contains`),
 * `replacingOccurrences(of:with:)`, and `components(separatedBy:)` followed by
 * `joined(separator:)`. Character sets are given by their membership test.
 */
module Strings {

  predicate StartsWith(s: string, prefix: string) {
    |prefix| <= |s| && s[..|prefix|] == prefix
  }

  /** `s.contains(pattern)`: the pattern occurs somewhere in `s`. */
  predicate Contains(s: string, pattern: string)
    decreases |s|
  {
    StartsWith(s, pattern) || (s != [] && Contains(s[1..], pattern))
  }

  lemma {:induction false} ShorterNeverContains(s: string, pattern: string)
    requires |s| < |pattern|
    ensures !Contains(s, pattern)
    decreases |s|
  {
    if s != [] {
      ShorterNeverContains(s[1..], pattern);
    }
  }

  lemma ContainsOwnPrefix(s: string, rest: string)
    ensures Contains(s + rest, s)
  {
    assert (s + rest)[..|s|] == s;
  }

  /**
   * `s.replacingOccurrences(of: pattern, with: replacement)`: scanning left to right,
   * every occurrence that does not overlap an earlier replaced one is replaced.
   */
  function ReplaceAll(s: string, pattern: string, replacement: string): string
    requires pattern != []
    decreases |s|
  {
    if |s| < |pattern| then s
    else if StartsWith(s, pattern) then replacement + ReplaceAll(s[|pattern|..], pattern, replacement)
    else [s[0]] + ReplaceAll(s[1..], pattern, replacement)
  }

  /** Replacing a pattern that does not occur changes nothing. */
  lemma {:induction false} ReplaceAllWithoutOccurrence(s: string, pattern: string, replacement: string)
    requires pattern != [] && !Contains(s, pattern)
    ensures ReplaceAll(s, pattern, replacement) == s
    decreases |s|
  {
    if |s| >= |pattern| {
      ReplaceAllWithoutOccurrence(s[1..], pattern, replacement);
      assert [s[0]] + s[1..] == s;
    }
  }

  /** When the pattern occurs, the result contains the replacement. */
  lemma {:induction false} ReplaceAllLeavesReplacement(s: string, pattern: string, replacement: string)
    requires pattern != [] && Contains(s, pattern)
    ensures Contains(ReplaceAll(s, pattern, replacement), replacement)
    decreases |s|
  {
    if |s| < |pattern| {
      ShorterNeverContains(s, pattern);
    } else if StartsWith(s, pattern) {
      ContainsOwnPrefix(replacement, ReplaceAll(s[|pattern|..], pattern, replacement));
    } else {
      ReplaceAllLeavesReplacement(s[1..], pattern, replacement);
      var r := ReplaceAll(s, pattern, replacement);
      assert r[1..] == ReplaceAll(s[1..], pattern, replacement);
    }
  }

  /**
   * `s.components(separatedBy: set)`: the pieces between separator characters,
   * empty pieces included; the empty string has one empty component.
   */
  function Components(s: string, isSeparator: char -> bool): (parts: seq<string>)
    ensures |parts| >= 1
    ensures forall i, j :: 0 <= i < |parts| && 0 <= j < |parts[i]| ==> !isSeparator(parts[i][j])
  {
    if s == [] then [[]]
    else
      var rest := Components(s[1..], isSeparator);
      if isSeparator(s[0]) then [[]] + rest
      else [[s[0]] + rest[0]] + rest[1..]
  }

  /** `parts.joined(separator: separator)`. */
  function Joined(parts: seq<string>, separator: string): string {
    if parts == [] then []
    else if |parts| == 1 then parts[0]
    else parts[0] + separator + Joined(parts[1..], separator)
  }

  /** Reference definition: every separator character replaced by `separator`. */
  function Substitute(s: string, isSeparator: char -> bool, separator: string): string {
    if s == [] then []
    else (if isSeparator(s[0]) then separator else [s[0]]) + Substitute(s[1..], isSeparator, separator)
  }

  /** Reference definition: the characters of `s` that satisfy `keep`, in order. */
  function Filter(s: string, keep: char -> bool): string {
    if s == [] then [] else (if keep(s[0]) then [s[0]] else []) + Filter(s[1..], keep)
  }

  /** Splitting on a character set and joining again replaces each separator. */
  lemma {:induction false} JoinedComponents(s: string, isSeparator: char -> bool, separator: string)
    ensures Joined(Components(s, isSeparator), separator) == Substitute(s, isSeparator, separator)
  {
    if s != [] {
      JoinedComponents(s[1..], isSeparator, separator);
      var rest := Components(s[1..], isSeparator);
      if isSeparator(s[0]) {
        assert ([[]] + rest)[1..] == rest;
      } else if |rest| == 1 {
      } else {
        var parts := [[s[0]] + rest[0]] + rest[1..];
        assert parts[1..] == rest[1..];
        assert Joined(rest, separator) == rest[0] + separator + Joined(rest[1..], separator);
      }
    }
  }

  /** Substituting a single character keeps the length and every kept character's position. */
  lemma {:induction false} SubstituteCharacter(s: string, isSeparator: char -> bool, c: char)
    ensures |Substitute(s, isSeparator, [c])| == |s|
    ensures forall i :: 0 <= i < |s| ==>
      Substitute(s, isSeparator, [c])[i] == if isSeparator(s[i]) then c else s[i]
  {
    if s != [] {
      SubstituteCharacter(s[1..], isSeparator, c);
      var r := Substitute(s, isSeparator, [c]);
      assert r[1..] == Substitute(s[1..], isSeparator, [c]);
      forall i | 1 <= i < |s|
        ensures r[i] == if isSeparator(s[i]) then c else s[i]
      {
        assert r[i] == r[1..][i - 1];
        assert s[i] == s[1..][i - 1];
      }
    }
  }

  /** Substituting the empty string keeps exactly the non-separators. */
  lemma {:induction false} SubstituteNothing(s: string, isSeparator: char -> bool, keep: char -> bool)
    requires forall c :: keep(c) <==> !isSeparator(c)
    ensures Substitute(s, isSeparator, []) == Filter(s, keep)
  {
    if s != [] {
      SubstituteNothing(s[1..], isSeparator, keep);
    }
  }

  /** A filter keeps only characters that pass it, and all of those. */
  lemma {:induction false} FilterMembers(s: string, keep: char -> bool)
    ensures forall c :: c in Filter(s, keep) <==> c in s && keep(c)
  {
    if s != [] {
      FilterMembers(s[1..], keep);
      assert s == [s[0]] + s[1..];
    }
  }
}
