/**
 * The two regular expressions of the client validator, written as predicates that
 * follow the structure of each pattern, with a characterisation of the strings each
 * accepts.
 *
 *   email: ^[^\s@]+@[^\s@]+\.[^\s@]+$
 *   phone: ^[\+]?[\d\s\-\(\)]{10,}$
 */
module Patterns {
  import opened Text

  /** The class `[^\s@]`. */
  predicate EmailChar(c: char) {
    !IsJsSpace(c) && c != '@'
  }

  predicate AllEmailChars(s: string) {
    forall k :: 0 <= k < |s| ==> EmailChar(s[k])
  }

  /**
   * The email pattern: a non-empty run of `[^\s@]`, an `@`, a non-empty run, a `.`
   * and a non-empty run, covering the whole string. The pattern matches when some
   * choice of the `@` and the `.` works.
   */
  predicate MatchesEmail(s: string) {
    exists at, dot | 0 < at < dot < |s| - 1 ::
      && at + 1 < dot && s[at] == '@' && s[dot] == '.'
      && AllEmailChars(s[..at]) && AllEmailChars(s[at + 1..dot]) && AllEmailChars(s[dot + 1..])
  }

  /** A `.` with at least one character on each side. */
  predicate HasInnerDot(d: string) {
    exists k :: 0 < k < |d| - 1 && d[k] == '.'
  }

  /**
   * The shape of an accepted address, stated on the whole string: no whitespace,
   * exactly one `@`, something before it, and after it a domain with an inner `.`.
   */
  predicate EmailShape(s: string) {
    && (forall k :: 0 <= k < |s| ==> !IsJsSpace(s[k]))
    && (exists at :: 0 < at < |s| && s[at] == '@' && OnlyAtSignAt(s, at) && HasInnerDot(s[at + 1..]))
  }

  /** The only `@` of `s` is at position `at`. */
  predicate OnlyAtSignAt(s: string, at: int) {
    forall k :: 0 <= k < |s| && k != at ==> s[k] != '@'
  }

  /** A string the email pattern accepts has that shape. */
  lemma MatchedEmailHasShape(s: string)
    requires MatchesEmail(s)
    ensures EmailShape(s)
  {
    var at, dot :| 0 < at < dot < |s| - 1
      && at + 1 < dot && s[at] == '@' && s[dot] == '.'
      && AllEmailChars(s[..at]) && AllEmailChars(s[at + 1..dot]) && AllEmailChars(s[dot + 1..]);
    forall k | 0 <= k < |s| && k != at && k != dot ensures EmailChar(s[k]) {
      if k < at {
        assert s[k] == s[..at][k];
      } else if k < dot {
        assert s[k] == s[at + 1..dot][k - at - 1];
      } else {
        assert s[k] == s[dot + 1..][k - dot - 1];
      }
    }
    assert OnlyAtSignAt(s, at);
    assert s[at + 1..][dot - at - 1] == '.';
  }

  /** A string of that shape is accepted by the email pattern. */
  lemma ShapedEmailMatches(s: string)
    requires EmailShape(s)
    ensures MatchesEmail(s)
  {
    var at :| 0 < at < |s| && s[at] == '@' && OnlyAtSignAt(s, at) && HasInnerDot(s[at + 1..]);
    var d := s[at + 1..];
    var k :| 0 < k < |d| - 1 && d[k] == '.';
    var dot := at + 1 + k;
    assert s[dot] == '.';
    assert AllEmailChars(s[..at]);
    assert AllEmailChars(s[at + 1..dot]);
    assert AllEmailChars(s[dot + 1..]);
  }

  /** The email pattern accepts exactly the strings of that shape. */
  lemma EmailPatternShape(s: string)
    ensures MatchesEmail(s) <==> EmailShape(s)
  {
    if MatchesEmail(s) { MatchedEmailHasShape(s); }
    if EmailShape(s) { ShapedEmailMatches(s); }
  }

  /** The class `[\d\s\-\(\)]`: an ASCII digit, whitespace, a hyphen or a parenthesis. */
  predicate PhoneChar(c: char) {
    ('0' <= c <= '9') || IsJsSpace(c) || c == '-' || c == '(' || c == ')'
  }

  predicate AllPhoneChars(s: string) {
    forall k :: 0 <= k < |s| ==> PhoneChar(s[k])
  }

  /** The phone pattern: an optional `+`, then ten or more characters of the class, to the end. */
  predicate MatchesPhone(s: string) {
    || (|s| >= 10 && AllPhoneChars(s))
    || (|s| >= 11 && s[0] == '+' && AllPhoneChars(s[1..]))
  }

  /** What follows a leading `+`, or the whole string when it has none. */
  function PhoneBody(s: string): (b: string)
    ensures |b| <= |s| && b == s[|s| - |b|..]
  {
    if s != [] && s[0] == '+' then s[1..] else s
  }

  /**
   * A phone value is accepted exactly when, after one optional leading `+`, at least
   * ten characters remain and every one is a digit, whitespace, `-`, `(` or `)`.
   */
  lemma PhonePatternShape(s: string)
    ensures MatchesPhone(s) <==> |PhoneBody(s)| >= 10 && AllPhoneChars(PhoneBody(s))
  {
    if s != [] && s[0] == '+' {
      assert !PhoneChar(s[0]);
    }
  }

  /** Separators count towards the ten: ten hyphens, without a single digit, are accepted. */
  lemma TenHyphensAccepted()
    ensures MatchesPhone("----------")
  {
  }

  /** A `+` alone does not count towards the ten. */
  lemma PlusNotCounted()
    ensures !MatchesPhone("+123456789")
  {
    assert !PhoneChar("+123456789"[0]);
  }

  /** An address as the validator expects it. */
  lemma WellFormedEmailAccepted()
    ensures MatchesEmail("jane@x.com")
  {
    var s := "jane@x.com";
    assert s[4] == '@' && s[6] == '.';
    assert AllEmailChars(s[..4]) && AllEmailChars(s[5..6]) && AllEmailChars(s[7..]);
  }

  /** A second `@` makes the pattern fail. */
  lemma TwoAtSignsRejected()
    ensures !MatchesEmail("a@b@c.d")
  {
    var s := "a@b@c.d";
    assert s[1] == '@' && s[3] == '@';
    EmailPatternShape(s);
  }

  /** Without an `@` the pattern fails. */
  lemma NoAtSignRejected()
    ensures !MatchesEmail("bad")
  {
  }

  lemma PhoneExamples()
    ensures MatchesPhone("555-123-4567")
    ensures MatchesPhone("+1 (555) 123-4567")
    ensures !MatchesPhone("123")
    ensures !MatchesPhone("555-123-456x")
  {
    assert !PhoneChar("555-123-456x"[11]);
  }
}
