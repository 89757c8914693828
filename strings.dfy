/** The string operations the contact-form validators rely on: JavaScript's
    white-space class (what `String.prototype.trim` strips and what `\s`
    matches inside a regular expression; the two are the same set) and
    `trim` itself. Strings are sequences of code points. */
module Strings {

  /** The WhiteSpace and LineTerminator code points of ECMAScript. */
  predicate IsWhitespace(c: char) {
    || c == ' ' || c == '\t' || c == '\n' || c == '\r'
    || c == '\U{000B}' || c == '\U{000C}' || c == '\U{00A0}' || c == '\U{1680}'
    || ('\U{2000}' <= c <= '\U{200A}')
    || c == '\U{2028}' || c == '\U{2029}' || c == '\U{202F}' || c == '\U{205F}'
    || c == '\U{3000}' || c == '\U{FEFF}'
  }

  predicate AllWhitespace(s: string) {
    forall i :: 0 <= i < |s| ==> IsWhitespace(s[i])
  }

  predicate NoWhitespace(s: string) {
    forall i :: 0 <= i < |s| ==> !IsWhitespace(s[i])
  }

  /** True when `t` could be what is left of a string after trimming:
      empty, or beginning and ending with a non-white-space character. */
  predicate Trimmed(t: string) {
    t == [] || (!IsWhitespace(t[0]) && !IsWhitespace(t[|t| - 1]))
  }

  /** Drops the leading white space: what is left is a suffix of `s`
      that does not start with white space, and only white space was dropped. */
  function TrimStart(s: string): (r: string)
    ensures |r| <= |s| && r == s[|s| - |r|..]
    ensures AllWhitespace(s[..|s| - |r|])
    ensures r == [] || !IsWhitespace(r[0])
  {
    if |s| > 0 && IsWhitespace(s[0]) then
      var r := TrimStart(s[1..]);
      assert s[..|s| - |r|] == [s[0]] + s[1..][..|s| - 1 - |r|];
      r
    else
      s
  }

  /** Drops the trailing white space: what is left is a prefix of `s`
      that does not end with white space, and only white space was dropped. */
  function TrimEnd(s: string): (r: string)
    ensures |r| <= |s| && r == s[..|r|]
    ensures AllWhitespace(s[|r|..])
    ensures r == [] || !IsWhitespace(r[|r| - 1])
  {
    if |s| > 0 && IsWhitespace(s[|s| - 1]) then
      var r := TrimEnd(s[..|s| - 1]);
      assert s[|r|..] == s[..|s| - 1][|r|..] + [s[|s| - 1]];
      r
    else
      s
  }

  /** A code point outside the Basic Multilingual Plane, which UTF-16 stores
      as a surrogate pair. */
  predicate Astral(c: char) {
    c >= '\U{10000}'
  }

  /** The positions of the astral code points of `s`. */
  ghost function AstralPositions(s: string): set<int> {
    set i | 0 <= i < |s| && Astral(s[i])
  }

  /** `s.length`: the number of UTF-16 code units of `s`, two for each
      astral code point and one for every other. */
  function Utf16Length(s: string): (n: nat)
    ensures |s| <= n <= 2 * |s|
    ensures n == |s| <==> forall i :: 0 <= i < |s| ==> !Astral(s[i])
  {
    if s == [] then 0
    else
      var init := s[..|s| - 1];
      assert forall i :: 0 <= i < |init| ==> init[i] == s[i];
      Utf16Length(init) + (if Astral(s[|s| - 1]) then 2 else 1)
  }

  /** The exact count: one code unit per code point, plus one more for each
      astral code point. */
  lemma {:induction false} Utf16LengthCounts(s: string)
    ensures Utf16Length(s) == |s| + |AstralPositions(s)|
  {
    if s != [] {
      var init := s[..|s| - 1];
      Utf16LengthCounts(init);
      assert forall i :: 0 <= i < |init| ==> init[i] == s[i];
      assert AstralPositions(s) ==
        AstralPositions(init) + (if Astral(s[|s| - 1]) then {|init|} else {});
      assert |init| !in AstralPositions(init);
    }
  }

  /** `s.trim()`: the middle of `s` left once its white-space margins are cut off. */
  function Trim(s: string): (r: string)
    ensures |r| <= |s|
    ensures Trimmed(r)
  {
    TrimEnd(TrimStart(s))
  }

  /** Leading white space in front of a string that does not itself start
      with white space is exactly what TrimStart removes. */
  lemma {:induction false} TrimStartOfMargin(a: string, t: string)
    requires AllWhitespace(a)
    requires t == [] || !IsWhitespace(t[0])
    ensures TrimStart(a + t) == t
  {
    if a != [] {
      assert (a + t)[1..] == a[1..] + t;
      TrimStartOfMargin(a[1..], t);
    } else {
      assert a + t == t;
    }
  }

  /** Trailing white space behind a string that does not itself end
      with white space is exactly what TrimEnd removes. */
  lemma {:induction false} TrimEndOfMargin(t: string, b: string)
    requires AllWhitespace(b)
    requires t == [] || !IsWhitespace(t[|t| - 1])
    ensures TrimEnd(t + b) == t
  {
    if b != [] {
      assert (t + b)[..|t + b| - 1] == t + b[..|b| - 1];
      TrimEndOfMargin(t, b[..|b| - 1]);
    } else {
      assert t + b == t;
    }
  }

  /** Trim is characterised by its result alone: whenever `s` is a white-space
      margin, a trimmed middle and another white-space margin, `Trim(s)` is
      that middle. */
  lemma {:induction false} TrimOfMargins(a: string, t: string, b: string)
    requires AllWhitespace(a) && AllWhitespace(b) && Trimmed(t)
    ensures Trim(a + t + b) == t
  {
    if t == [] {
      assert a + t + b == a + b;
      assert AllWhitespace(a + b);
      TrimStartOfMargin(a + b, []);
      assert a + b + [] == a + b;
      TrimEndOfMargin([], []);
    } else {
      assert a + t + b == a + (t + b);
      TrimStartOfMargin(a, t + b);
      TrimEndOfMargin(t, b);
    }
  }

  /** Cutting a suffix `u` out of `s` and a prefix `r` out of `u` splits `s` in three. */
  lemma SuffixPrefixSplit(s: string, u: string, r: string)
    requires |u| <= |s| && u == s[|s| - |u|..]
    requires |r| <= |u| && r == u[..|r|]
    ensures s == s[..|s| - |u|] + r + u[|r|..]
  {
    assert s == s[..|s| - |u|] + u;
    assert u == r + u[|r|..];
  }

  /** Conversely, `s` is always the trimmed result with white-space margins
      on both sides. */
  lemma TrimSplits(s: string) returns (a: string, b: string)
    ensures AllWhitespace(a) && AllWhitespace(b)
    ensures s == a + Trim(s) + b
  {
    var u := TrimStart(s);
    var r := TrimEnd(u);
    SuffixPrefixSplit(s, u, r);
    a, b := s[..|s| - |u|], u[|r|..];
  }

  lemma TrimIdempotent(s: string)
    ensures Trim(Trim(s)) == Trim(s)
  {
    var t := Trim(s);
    TrimOfMargins([], t, []);
    assert [] + t + [] == t;
  }

  /** A string without white space is left as it is. */
  lemma TrimNoWhitespace(s: string)
    requires NoWhitespace(s)
    ensures Trim(s) == s
  {
    TrimOfMargins([], s, []);
    assert [] + s + [] == s;
  }

  /** Trimming yields the empty string exactly for all-white-space input. */
  lemma TrimEmptyIff(s: string)
    ensures Trim(s) == [] <==> AllWhitespace(s)
  {
    if AllWhitespace(s) {
      TrimOfMargins(s, [], []);
      assert s + [] + [] == s;
    } else {
      var a, b := TrimSplits(s);
    }
  }
}
