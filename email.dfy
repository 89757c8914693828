/** The e-mail pattern `^[^\s@]+@[^\s@]+\.[^\s@]+$` that both contact-form
    validators test, as a structural predicate over the string, together with
    the meaning of the regular expression itself and a proof that the two agree. */
module Email {
  import opened Strings

  /** A character matched by the class `[^\s@]`. */
  predicate Plain(c: char) {
    !IsWhitespace(c) && c != '@'
  }

  /** A string every character of which `[^\s@]` matches. */
  predicate AllPlain(s: string) {
    forall i :: 0 <= i < |s| ==> Plain(s[i])
  }

  /** The position of the first occurrence of `c` in `s`. */
  function IndexOf(s: string, c: char): (i: nat)
    requires c in s
    ensures i < |s| && s[i] == c && c !in s[..i]
  {
    if s[0] == c then 0 else
      var j := IndexOf(s[1..], c);
      assert s[..j + 1] == [s[0]] + s[1..][..j];
      j + 1
  }

  /** The domain has a `.` that is neither its first nor its last character. */
  predicate HasInteriorDot(domain: string) {
    exists k :: 0 < k < |domain| - 1 && domain[k] == '.'
  }

  /** The pattern, field by field: no white space anywhere, exactly one `@`,
      a non-empty part before it, and an interior `.` in the part after it. */
  predicate IsEmail(s: string) {
    && NoWhitespace(s)
    && multiset(s)['@'] == 1
    && var at := IndexOf(s, '@');
    && at > 0
    && HasInteriorDot(s[at + 1..])
  }

  /** What the regular expression matches, read off its shape: the whole string
      is one or more `[^\s@]`, an `@`, one or more `[^\s@]`, a literal `.`
      and one or more `[^\s@]`. */
  ghost predicate MatchesRegex(s: string) {
    exists at, dot ::
      && 0 < at && at + 1 < dot && dot + 1 < |s|
      && s[at] == '@' && s[dot] == '.'
      && AllPlain(s[..at]) && AllPlain(s[at + 1..dot]) && AllPlain(s[dot + 1..])
  }

  /** `c` does not occur in a string whose multiset count of `c` is zero, and back. */
  lemma CountZero(s: string, c: char)
    ensures multiset(s)[c] == 0 <==> c !in s
  {
    if c in s {
      var i :| 0 <= i < |s| && s[i] == c;
      assert s == s[..i] + [c] + s[i + 1..];
      assert multiset(s) == multiset(s[..i]) + multiset{c} + multiset(s[i + 1..]);
    }
  }

  /** In a string without white space and with a single `@`, everything
      before and everything after that `@` is plain. */
  lemma {:induction false} AroundSingleAt(s: string, at: nat)
    requires NoWhitespace(s) && multiset(s)['@'] == 1
    requires at < |s| && s[at] == '@'
    ensures AllPlain(s[..at]) && AllPlain(s[at + 1..])
  {
    var head, rest := s[..at], s[at + 1..];
    assert s == head + [s[at]] + rest;
    assert multiset(s) == multiset(head) + multiset{'@'} + multiset(rest);
    CountZero(head, '@');
    CountZero(rest, '@');
    forall i | 0 <= i < |head|
      ensures Plain(head[i])
    {
      assert head[i] == s[i];
    }
    forall i | 0 <= i < |rest|
      ensures Plain(rest[i])
    {
      assert rest[i] == s[at + 1 + i];
    }
  }

  /** Every part of a plain string is plain. */
  lemma AllPlainSlice(t: string, i: nat, j: nat)
    requires AllPlain(t) && i <= j <= |t|
    ensures AllPlain(t[i..j])
  {
    forall k | 0 <= k < j - i
      ensures Plain(t[i..j][k])
    {
      assert t[i..j][k] == t[i + k];
    }
  }

  /** Every string the structural predicate accepts matches the regular expression. */
  lemma IsEmailMatchesRegex(s: string)
    requires IsEmail(s)
    ensures MatchesRegex(s)
  {
    var at := IndexOf(s, '@');
    var rest := s[at + 1..];
    var k :| 0 < k < |rest| - 1 && rest[k] == '.';
    var dot := at + 1 + k;
    AroundSingleAt(s, at);
    AllPlainSlice(rest, 0, k);
    AllPlainSlice(rest, k + 1, |rest|);
    assert s[at + 1..dot] == rest[0..k];
    assert s[dot + 1..] == rest[k + 1..|rest|];
    assert s[dot] == '.';
    assert AllPlain(s[..at]) && AllPlain(s[at + 1..dot]) && AllPlain(s[dot + 1..]);
  }

  /** The first occurrence of `c` in `head + [c] + tail`, when `head` has none, is right after `head`. */
  lemma {:induction false} IndexOfAfter(head: string, c: char, tail: string)
    requires c !in head
    ensures IndexOf(head + [c] + tail, c) == |head|
  {
    var s := head + [c] + tail;
    assert s[..|head|] == head;
    assert s[|head|] == c;
  }

  /** A string of plain parts joined by a single `@` has exactly one `@` and no white space. */
  lemma {:induction false} JoinedAtSign(head: string, rest: string)
    requires AllPlain(head) && AllPlain(rest)
    ensures NoWhitespace(head + ['@'] + rest)
    ensures multiset(head + ['@'] + rest)['@'] == 1
  {
    var s := head + ['@'] + rest;
    forall i | 0 <= i < |s|
      ensures !IsWhitespace(s[i])
    {
      if i < |head| {
        assert s[i] == head[i];
      } else if i > |head| {
        assert s[i] == rest[i - |head| - 1];
      }
    }
    CountZero(head, '@');
    CountZero(rest, '@');
    assert multiset(s) == multiset(head) + multiset{'@'} + multiset(rest);
  }

  /** The three plain parts of the pattern, joined by `@` and `.`, form an accepted address. */
  lemma {:induction false} PartsFormEmail(head: string, mid: string, tail: string)
    requires head != [] && mid != [] && tail != []
    requires AllPlain(head) && AllPlain(mid) && AllPlain(tail)
    ensures IsEmail(head + ['@'] + (mid + ['.'] + tail))
  {
    var rest := mid + ['.'] + tail;
    assert AllPlain(rest) by {
      forall i | 0 <= i < |rest|
        ensures Plain(rest[i])
      {
        if i < |mid| {
          assert rest[i] == mid[i];
        } else if i > |mid| {
          assert rest[i] == tail[i - |mid| - 1];
        }
      }
    }
    JoinedAtSign(head, rest);
    assert '@' !in head by {
      forall i | 0 <= i < |head|
        ensures head[i] != '@'
      {
        assert Plain(head[i]);
      }
    }
    IndexOfAfter(head, '@', rest);
    var s := head + ['@'] + rest;
    assert s[|head| + 1..] == rest;
    assert rest[|mid|] == '.';
  }

  /** A string split by the pattern at `at` and `dot` is accepted. */
  lemma SplitIsEmail(s: string, at: nat, dot: nat)
    requires 0 < at && at + 1 < dot && dot + 1 < |s|
    requires s[at] == '@' && s[dot] == '.'
    requires AllPlain(s[..at]) && AllPlain(s[at + 1..dot]) && AllPlain(s[dot + 1..])
    ensures IsEmail(s)
  {
    var head, mid, tail := s[..at], s[at + 1..dot], s[dot + 1..];
    var rest := s[at + 1..];
    assert rest == mid + ['.'] + tail by {
      assert rest == rest[..dot - at - 1] + rest[dot - at - 1..];
      assert rest[dot - at - 1..] == [s[dot]] + tail;
    }
    assert s == head + ['@'] + rest by {
      assert s == s[..at] + s[at..];
      assert s[at..] == [s[at]] + rest;
    }
    PartsFormEmail(head, mid, tail);
  }

  /** Every string the regular expression matches is accepted by the structural predicate. */
  lemma RegexMatchIsEmail(s: string)
    requires MatchesRegex(s)
    ensures IsEmail(s)
  {
    var at, dot :|
      && 0 < at && at + 1 < dot && dot + 1 < |s|
      && s[at] == '@' && s[dot] == '.'
      && AllPlain(s[..at]) && AllPlain(s[at + 1..dot]) && AllPlain(s[dot + 1..]);
    SplitIsEmail(s, at, dot);
  }

  /** The structural predicate accepts exactly the strings the regular expression matches. */
  lemma IsEmailIffRegex(s: string)
    ensures IsEmail(s) <==> MatchesRegex(s)
  {
    if IsEmail(s) {
      IsEmailMatchesRegex(s);
    }
    if MatchesRegex(s) {
      RegexMatchIsEmail(s);
    }
  }
}
