/** The e-mail check of the contact form: the pattern
    `^[^\s@]+@[^\s@]+\.[^\s@]+$`, and what it amounts to. */
module EmailFormat {

  /** `\s` in an ECMAScript regular expression: the WhiteSpace and
      LineTerminator code points. */
  predicate IsWhitespace(c: char) {
    || c == '\t' || c == '\n' || c == '\U{000B}' || c == '\U{000C}' || c == '\r'
    || c == ' ' || c == '\U{00A0}' || c == '\U{1680}'
    || ('\U{2000}' <= c <= '\U{200A}')
    || c == '\U{2028}' || c == '\U{2029}' || c == '\U{202F}' || c == '\U{205F}'
    || c == '\U{3000}' || c == '\U{FEFF}'
  }

  /** A character of the class `[^\s@]`. */
  predicate Plain(c: char) {
    !IsWhitespace(c) && c != '@'
  }

  /** `[^\s@]+`: a non-empty run of characters of that class. */
  predicate PlainRun(t: string) {
    |t| > 0 && forall k :: 0 <= k < |t| ==> Plain(t[k])
  }

  /** The pattern's five parts in order, with `at` the position of the `@`
      and `dot` that of the escaped `\.`. */
  predicate SplitsAt(s: string, at: int, dot: int) {
    && 0 <= at < dot < |s|
    && PlainRun(s[..at])
    && s[at] == '@'
    && PlainRun(s[at + 1..dot])
    && s[dot] == '.'
    && PlainRun(s[dot + 1..])
  }

  /** `/^[^\s@]+@[^\s@]+\.[^\s@]+$/.test(s)`: anchored at both ends, so the
      pattern matches when some choice of its `@` and its `\.` splits the whole
      string into its five parts. */
  predicate MatchesEmailRegex(s: string): (m: bool)
    ensures m ==> 5 <= |s| && '@' in s && '.' in s
  {
    exists at, dot | 0 <= at < dot < |s| :: SplitsAt(s, at, dot)
  }

  /** Position `at` holds the only `@` of s. */
  predicate OnlyAtSign(s: string, at: int) {
    0 <= at < |s| && s[at] == '@' && forall k :: 0 <= k < |s| && k != at ==> s[k] != '@'
  }

  /** The domain part has a `.` with at least one character on each side. */
  predicate HasInnerDot(d: string) {
    exists k :: 0 < k < |d| - 1 && d[k] == '.'
  }

  predicate NoWhitespace(s: string) {
    forall k :: 0 <= k < |s| ==> !IsWhitespace(s[k])
  }

  /** A declarative reading of an acceptable address: no whitespace, exactly
      one `@`, a non-empty local part before it, and a domain after it with an
      inner `.`. */
  predicate WellFormedEmail(s: string) {
    NoWhitespace(s) && exists at | 0 < at < |s| :: OnlyAtSign(s, at) && HasInnerDot(s[at + 1..])
  }

  /** Number of occurrences of c in s. */
  function Count(c: char, s: string): (n: nat)
    ensures n <= |s|
    ensures n == 0 <==> c !in s
  {
    if s == [] then 0 else Count(c, s[..|s| - 1]) + (if s[|s| - 1] == c then 1 else 0)
  }

  lemma {:induction false} CountConcat(c: char, a: string, b: string)
    ensures Count(c, a + b) == Count(c, a) + Count(c, b)
  {
    if b != [] {
      assert (a + b)[..|a + b| - 1] == a + b[..|b| - 1];
      assert (a + b)[|a + b| - 1] == b[|b| - 1];
      CountConcat(c, a, b[..|b| - 1]);
    } else {
      assert a + b == a;
    }
  }

  lemma MatchImpliesWellFormed(s: string, at: int, dot: int)
    requires SplitsAt(s, at, dot)
    ensures OnlyAtSign(s, at) && at > 0 && HasInnerDot(s[at + 1..]) && NoWhitespace(s)
  {
    forall k | 0 <= k < |s|
      ensures !IsWhitespace(s[k]) && (k != at ==> s[k] != '@')
    {
      if k < at {
        assert s[k] == s[..at][k];
      } else if at < k < dot {
        assert s[k] == s[at + 1..dot][k - at - 1];
      } else if dot < k {
        assert s[k] == s[dot + 1..][k - dot - 1];
      }
    }
    var d := s[at + 1..];
    assert d[dot - at - 1] == '.';
  }

  lemma WellFormedImpliesMatch(s: string, at: int)
    requires NoWhitespace(s) && OnlyAtSign(s, at) && at > 0 && HasInnerDot(s[at + 1..])
    ensures MatchesEmailRegex(s)
  {
    var d := s[at + 1..];
    var k :| 0 < k < |d| - 1 && d[k] == '.';
    var dot := at + 1 + k;
    assert s[dot] == '.';
    assert PlainRun(s[..at]) by {
      forall j | 0 <= j < at ensures Plain(s[..at][j]) {
        assert s[..at][j] == s[j];
      }
    }
    var host, tld := s[at + 1..dot], s[dot + 1..];
    assert PlainRun(host) by {
      forall j | 0 <= j < |host| ensures Plain(host[j]) {
        assert host[j] == s[at + 1 + j];
      }
    }
    assert PlainRun(tld) by {
      forall j | 0 <= j < |tld| ensures Plain(tld[j]) {
        assert tld[j] == s[dot + 1 + j];
      }
    }
    assert SplitsAt(s, at, dot);
  }

  /** The pattern accepts exactly the well-formed addresses. */
  lemma EmailRegexCharacterisation(s: string)
    ensures MatchesEmailRegex(s) <==> WellFormedEmail(s)
  {
    if MatchesEmailRegex(s) {
      var at, dot :| SplitsAt(s, at, dot);
      MatchImpliesWellFormed(s, at, dot);
    }
    if WellFormedEmail(s) {
      var at :| OnlyAtSign(s, at) && at > 0 && HasInnerDot(s[at + 1..]);
      WellFormedImpliesMatch(s, at);
    }
  }

  /** An `@` at position `at` and nowhere else means exactly one `@`. */
  lemma OnlyAtSignCount(s: string, at: int)
    requires OnlyAtSign(s, at)
    ensures Count('@', s) == 1
  {
    assert s == s[..at] + [s[at]] + s[at + 1..];
    CountConcat('@', s[..at] + [s[at]], s[at + 1..]);
    CountConcat('@', s[..at], [s[at]]);
    assert '@' !in s[..at] by {
      forall j | 0 <= j < at ensures s[..at][j] != '@' {
        assert s[..at][j] == s[j];
      }
    }
    var domain := s[at + 1..];
    assert '@' !in domain by {
      forall j | 0 <= j < |domain| ensures domain[j] != '@' {
        assert domain[j] == s[at + 1 + j];
      }
    }
  }

  /** Every accepted address has exactly one `@` and no whitespace. */
  lemma AcceptedHasOneAtSign(s: string)
    requires MatchesEmailRegex(s)
    ensures Count('@', s) == 1 && NoWhitespace(s)
  {
    var at, dot :| SplitsAt(s, at, dot);
    MatchImpliesWellFormed(s, at, dot);
    OnlyAtSignCount(s, at);
  }

  /** A string without `@` is rejected. */
  lemma RejectsWithoutAtSign(s: string)
    requires '@' !in s
    ensures !MatchesEmailRegex(s)
  {
    forall a, dot | 0 <= a < dot < |s| ensures !SplitsAt(s, a, dot) {
      assert s[a] in s;
    }
  }

  /** A string with no `.` after its first `@` is rejected. */
  lemma RejectsWithoutDotAfterAtSign(s: string, at: int)
    requires 0 <= at < |s| && s[at] == '@' && '@' !in s[..at] && '.' !in s[at + 1..]
    ensures !MatchesEmailRegex(s)
  {
    forall a, dot | 0 <= a < dot < |s| ensures !SplitsAt(s, a, dot) {
      if a < at {
        assert s[a] == s[..at][a];
      } else if at < a {
        assert s[..a][at] == s[at];
      } else {
        assert s[dot] == s[at + 1..][dot - at - 1];
      }
    }
  }

  /** A well-formed address from a contact form is accepted. */
  lemma AcceptsExample()
    ensures MatchesEmailRegex("a@b.com")
  {
    var s := "a@b.com";
    assert s[..1] == "a" && s[2..3] == "b" && s[4..] == "com";
    assert SplitsAt(s, 1, 3);
  }

  /** A string without `@` is rejected. */
  lemma RejectsExample()
    ensures !MatchesEmailRegex("not-an-email")
  {
    RejectsWithoutAtSign("not-an-email");
  }
}
