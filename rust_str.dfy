/**
 * The parts of Rust's `str` API that the launcher relies on, stated over
 * `string` (a sequence of Unicode scalar values, like Rust's `char`).
 *
 * `trim_matches` and `trim` are modelled as trimming by a set of removable
 * characters: one quote character for `trim_matches('"')`, the Unicode
 * White_Space characters for `trim`.
 */
module RustStr {

  /** The characters for which Rust's `char::is_whitespace` holds (Unicode White_Space). */
  const Whitespace: set<char> := {
    '\t', '\n', '\U{B}', '\U{C}', '\r', ' ', '\U{85}', '\U{A0}', '\U{1680}',
    '\U{2000}', '\U{2001}', '\U{2002}', '\U{2003}', '\U{2004}', '\U{2005}',
    '\U{2006}', '\U{2007}', '\U{2008}', '\U{2009}', '\U{200A}',
    '\U{2028}', '\U{2029}', '\U{202F}', '\U{205F}', '\U{3000}'
  }

  /**
   * `r` is `s[i..i + |r|]`, and everything of `s` before and after that piece
   * is a character of `cs`.
   */
  ghost predicate TrimmedAt(s: string, r: string, cs: set<char>, i: int)
  {
    0 <= i <= |s| - |r| && r == s[i..i + |r|] &&
    (forall k :: 0 <= k < i ==> s[k] in cs) &&
    (forall k :: i + |r| <= k < |s| ==> s[k] in cs)
  }

  /**
   * `r` is `s` with some characters of `cs` taken off its front and some off
   * its back: a contiguous piece of `s`, in order, with nothing removed from
   * the middle.
   */
  ghost predicate TrimmedFrom(s: string, r: string, cs: set<char>)
  {
    exists i :: TrimmedAt(s, r, cs, i)
  }

  /** Neither end of `r` is a character of `cs`. */
  predicate EndsClear(r: string, cs: set<char>)
  {
    r == [] || (r[0] !in cs && r[|r| - 1] !in cs)
  }

  /** `r` is what trimming every character of `cs` off both ends of `s` leaves. */
  ghost predicate IsTrimOf(s: string, r: string, cs: set<char>)
  {
    TrimmedFrom(s, r, cs) && EndsClear(r, cs)
  }

  /** Rust's `trim_start_matches`: drop the longest prefix made of characters of `cs`. */
  function TrimStartMatches(s: string, cs: set<char>): string
  {
    if |s| > 0 && s[0] in cs then TrimStartMatches(s[1..], cs) else s
  }

  /**
   * `trim_start_matches` leaves a suffix of `s`, drops only characters of
   * `cs`, and stops at the first character outside `cs`.
   */
  lemma {:induction false} TrimStartSpec(s: string, cs: set<char>)
    ensures |TrimStartMatches(s, cs)| <= |s|
    ensures TrimStartMatches(s, cs) == s[|s| - |TrimStartMatches(s, cs)|..]
    ensures forall k :: 0 <= k < |s| - |TrimStartMatches(s, cs)| ==> s[k] in cs
    ensures TrimStartMatches(s, cs) == [] || TrimStartMatches(s, cs)[0] !in cs
  {
    if |s| > 0 && s[0] in cs {
      TrimStartSpec(s[1..], cs);
      forall k | 1 <= k < |s| - |TrimStartMatches(s, cs)| ensures s[k] in cs {
        assert s[k] == s[1..][k - 1];
      }
    }
  }

  /** Rust's `trim_end_matches`: drop the longest suffix made of characters of `cs`. */
  function TrimEndMatches(s: string, cs: set<char>): string
  {
    if |s| > 0 && s[|s| - 1] in cs then TrimEndMatches(s[..|s| - 1], cs) else s
  }

  /**
   * `trim_end_matches` leaves a prefix of `s`, drops only characters of
   * `cs`, and stops at the last character outside `cs`.
   */
  lemma {:induction false} TrimEndSpec(s: string, cs: set<char>)
    ensures |TrimEndMatches(s, cs)| <= |s|
    ensures TrimEndMatches(s, cs) == s[..|TrimEndMatches(s, cs)|]
    ensures forall k :: |TrimEndMatches(s, cs)| <= k < |s| ==> s[k] in cs
    ensures TrimEndMatches(s, cs) == [] || TrimEndMatches(s, cs)[|TrimEndMatches(s, cs)| - 1] !in cs
  {
    if |s| > 0 && s[|s| - 1] in cs {
      TrimEndSpec(s[..|s| - 1], cs);
      forall k | |TrimEndMatches(s, cs)| <= k < |s| - 1 ensures s[k] in cs {
        assert s[k] == s[..|s| - 1][k];
      }
    }
  }

  /** Rust's `trim_matches`: drop every leading and every trailing character of `cs`. */
  function TrimMatches(s: string, cs: set<char>): string
  {
    TrimEndMatches(TrimStartMatches(s, cs), cs)
  }

  /** `trim_matches` removes characters of `cs` from the two ends only, and all of them. */
  lemma TrimMatchesIsTrim(s: string, cs: set<char>)
    ensures IsTrimOf(s, TrimMatches(s, cs), cs)
  {
    var t := TrimStartMatches(s, cs);
    TrimStartThenEnd(s, cs);
    TrimStartSpec(s, cs);
    TrimEndSpec(t, cs);
    var r := TrimMatches(s, cs);
    assert r != [] ==> r[0] == t[0];
  }

  /** Trimming the front and then the back leaves the piece of `s` that starts where the front trim stopped. */
  lemma TrimStartThenEnd(s: string, cs: set<char>)
    ensures TrimmedAt(s, TrimEndMatches(TrimStartMatches(s, cs), cs), cs, |s| - |TrimStartMatches(s, cs)|)
  {
    var t := TrimStartMatches(s, cs);
    var r := TrimEndMatches(t, cs);
    TrimStartSpec(s, cs);
    TrimEndSpec(t, cs);
    var i := |s| - |t|;
    assert t == s[i..];
    assert r == s[i..i + |r|];
    forall k | i + |r| <= k < |s|
      ensures s[k] in cs
    {
      assert s[k] == t[k - i];
    }
  }

  /** Rust's `trim`: drop leading and trailing whitespace. */
  function Trim(s: string): string
  {
    TrimMatches(s, Whitespace)
  }

  /**
   * The trim of a string is unique: `TrimmedFrom` and `EndsClear` together pin
   * the result down, so they specify `TrimMatches` completely.
   */
  lemma {:induction false} TrimUnique(s: string, r1: string, r2: string, cs: set<char>)
    requires IsTrimOf(s, r1, cs) && IsTrimOf(s, r2, cs)
    ensures r1 == r2
  {
    var i1 :| TrimmedAt(s, r1, cs, i1);
    var i2 :| TrimmedAt(s, r2, cs, i2);
    if r1 != [] && r2 != [] {
      // both start at the first character outside cs
      assert s[i1] == r1[0] && s[i2] == r2[0];
      assert i1 == i2;
      // and both end at the last character outside cs
      assert s[i1 + |r1| - 1] == r1[|r1| - 1];
      assert s[i2 + |r2| - 1] == r2[|r2| - 1];
      assert |r1| == |r2|;
      assert r1 == s[i1..i1 + |r1|] == r2;
    }
  }

  /**
   * Trimming `pre + m + suf`, where `pre` and `suf` consist of characters of
   * `cs` and `m` does not start or end with one, leaves exactly `m`.
   */
  lemma TrimMatchesPeels(pre: string, m: string, suf: string, cs: set<char>)
    requires forall k :: 0 <= k < |pre| ==> pre[k] in cs
    requires forall k :: 0 <= k < |suf| ==> suf[k] in cs
    requires EndsClear(m, cs)
    ensures TrimMatches(pre + m + suf, cs) == m
  {
    var s := pre + m + suf;
    assert TrimmedAt(s, m, cs, |pre|) by {
      assert m == s[|pre|..|pre| + |m|];
      forall k | 0 <= k < |pre| ensures s[k] in cs { assert s[k] == pre[k]; }
      forall k | |pre| + |m| <= k < |s| ensures s[k] in cs { assert s[k] == suf[k - |pre| - |m|]; }
    }
    TrimMatchesIsTrim(s, cs);
    TrimUnique(s, m, TrimMatches(s, cs), cs);
  }

  /** A string that does not start or end with a character of `cs` is its own trim. */
  lemma TrimMatchesKeeps(s: string, cs: set<char>)
    requires EndsClear(s, cs)
    ensures TrimMatches(s, cs) == s
  {
    assert [] + s + [] == s;
    TrimMatchesPeels([], s, [], cs);
  }

  /** Trimming is transitive: trimming `b` out of `a`, then `c` out of `b`, trims `c` out of `a`. */
  lemma {:induction false} TrimmedFromTrans(a: string, b: string, c: string, cs1: set<char>, cs2: set<char>)
    requires TrimmedFrom(a, b, cs1) && TrimmedFrom(b, c, cs2)
    ensures TrimmedFrom(a, c, cs1 + cs2)
  {
    var i :| TrimmedAt(a, b, cs1, i);
    var j :| TrimmedAt(b, c, cs2, j);
    assert forall k :: i <= k < i + |b| ==> a[k] == b[k - i];
    assert TrimmedAt(a, c, cs1 + cs2, i + j);
  }

  /** Rust's `to_lowercase`, on the characters the model distinguishes (see `LowerChar`). */
  function ToLowercase(s: string): (r: string)
    ensures |r| == |s|
    ensures forall i :: 0 <= i < |s| ==> r[i] == LowerChar(s[i])
  {
    seq(|s|, i requires 0 <= i < |s| => LowerChar(s[i]))
  }

  /**
   * Lower case of one character: ASCII `A`-`Z` to `a`-`z`, and the Kelvin sign
   * U+212A to `k`, the only other character whose lower case is an ASCII
   * letter of a single character. Other characters are kept as they are.
   */
  function LowerChar(c: char): char
  {
    if 'A' <= c <= 'Z' then (c as int + 32) as char
    else if c == '\U{212A}' then 'k'
    else c
  }

  /** Rust's `ends_with` for a string pattern. */
  predicate EndsWith(s: string, suffix: string)
  {
    |suffix| <= |s| && s[|s| - |suffix|..] == suffix
  }
}
