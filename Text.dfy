/**
 * String primitives the two core files rely on: JavaScript's `String.prototype.trim`
 * and `split(',')`, and PHP's `trim`.
 */
module Text {

  /**
   * The characters JavaScript's `trim` removes and the regex class `\s` matches:
   * the ECMAScript WhiteSpace and LineTerminator code points.
   */
  predicate IsJsSpace(c: char) {
    || c == '\t' || c == '\n' || c == '\U{000B}' || c == '\U{000C}' || c == '\r'
    || c == ' ' || c == '\U{00A0}' || c == '\U{1680}'
    || ('\U{2000}' <= c <= '\U{200A}')
    || c == '\U{2028}' || c == '\U{2029}' || c == '\U{202F}' || c == '\U{205F}'
    || c == '\U{3000}' || c == '\U{FEFF}'
  }

  /** The characters PHP's `trim` removes by default: space, tab, LF, CR, NUL and vertical tab. */
  predicate IsPhpSpace(c: char) {
    c == ' ' || c == '\t' || c == '\n' || c == '\r' || c == '\0' || c == '\U{000B}'
  }

  /** `s` with its leading `space` characters removed. */
  function TrimStart(s: string, space: char -> bool): string {
    if s != [] && space(s[0]) then TrimStart(s[1..], space) else s
  }

  /** `s` with its trailing `space` characters removed. */
  function TrimEnd(s: string, space: char -> bool): string {
    if s != [] && space(s[|s| - 1]) then TrimEnd(s[..|s| - 1], space) else s
  }

  /** `s` with the `space` characters removed at both ends. */
  function Trim(s: string, space: char -> bool): string {
    TrimEnd(TrimStart(s, space), space)
  }

  /** JavaScript's `value.trim()`. */
  function JsTrim(s: string): string {
    Trim(s, IsJsSpace)
  }

  /** PHP's `trim($value)`. */
  function PhpTrim(s: string): string {
    Trim(s, IsPhpSpace)
  }

  /** What `TrimStart` removes is a run of spaces, and what it keeps does not start with one. */
  lemma {:induction false} TrimStartDrops(s: string, space: char -> bool)
    ensures var r := TrimStart(s, space);
      && |r| <= |s| && r == s[|s| - |r|..]
      && (forall k :: 0 <= k < |s| - |r| ==> space(s[k]))
      && (r != [] ==> !space(r[0]))
  {
    if s != [] && space(s[0]) {
      TrimStartDrops(s[1..], space);
      var r := TrimStart(s, space);
      forall k | 0 < k < |s| - |r| ensures space(s[k]) {
        assert s[k] == s[1..][k - 1];
      }
    }
  }

  /** What `TrimEnd` removes is a run of spaces, and what it keeps does not end with one. */
  lemma {:induction false} TrimEndDrops(s: string, space: char -> bool)
    ensures var r := TrimEnd(s, space);
      && |r| <= |s| && r == s[..|r|]
      && (forall k :: |r| <= k < |s| ==> space(s[k]))
      && (r != [] ==> !space(r[|r| - 1]))
  {
    if s != [] && space(s[|s| - 1]) {
      TrimEndDrops(s[..|s| - 1], space);
      var r := TrimEnd(s, space);
      forall k | |r| <= k < |s| - 1 ensures space(s[k]) {
        assert s[k] == s[..|s| - 1][k];
      }
    }
  }

  /**
   * `Trim` keeps the slice of `s` between its leading and its trailing spaces: what
   * is removed on either side is spaces only, and what is kept neither starts nor
   * ends with a space.
   */
  lemma TrimSlice(s: string, space: char -> bool)
    ensures |Trim(s, space)| <= |TrimStart(s, space)| <= |s|
    ensures var r := Trim(s, space); var i := |s| - |TrimStart(s, space)|;
      && r == s[i..i + |r|]
      && (forall k :: 0 <= k < i ==> space(s[k]))
      && (forall k :: i + |r| <= k < |s| ==> space(s[k]))
      && (r != [] ==> !space(r[0]) && !space(r[|r| - 1]))
  {
    var t := TrimStart(s, space);
    TrimStartDrops(s, space);
    TrimEndDrops(t, space);
    var r := Trim(s, space);
    var i := |s| - |t|;
    assert r == s[i..i + |r|] by {
      assert t == s[i..];
    }
    forall k | i + |r| <= k < |s| ensures space(s[k]) {
      assert s[k] == t[k - i];
    }
  }

  /** Trimming leaves nothing exactly when the string is blank: empty or made of spaces only. */
  lemma TrimEmptyIffBlank(s: string, space: char -> bool)
    ensures Trim(s, space) == [] <==> forall k :: 0 <= k < |s| ==> space(s[k])
  {
    TrimSlice(s, space);
    var r := Trim(s, space);
    if r != [] {
      var i := |s| - |TrimStart(s, space)|;
      assert s[i] == r[0];
    }
  }

  /** Trimming a trimmed string changes nothing. */
  lemma TrimIdempotent(s: string, space: char -> bool)
    ensures Trim(Trim(s, space), space) == Trim(s, space)
  {
    var r := Trim(s, space);
    TrimSlice(s, space);
    TrimSlice(r, space);
    if r != [] {
      assert !space(r[0]) && !space(r[|r| - 1]);
    }
  }

  /**
   * JavaScript's `s.split(',')`: the pieces between commas, in order. An empty
   * string gives one empty piece.
   */
  function SplitComma(s: string): (parts: seq<string>)
    ensures |parts| >= 1
    ensures forall p :: p in parts ==> ',' !in p
  {
    if s == [] then [[]]
    else
      var rest := SplitComma(s[1..]);
      if s[0] == ',' then [[]] + rest
      else [[s[0]] + rest[0]] + rest[1..]
  }

  /** JavaScript's `parts.join(',')`. */
  function JoinComma(parts: seq<string>): string
    requires |parts| >= 1
  {
    if |parts| == 1 then parts[0] else parts[0] + "," + JoinComma(parts[1..])
  }

  /** The number of occurrences of `c` in `s`. */
  function Occurrences(s: string, c: char): nat {
    if s == [] then 0 else (if s[0] == c then 1 else 0) + Occurrences(s[1..], c)
  }

  /** Splitting on commas and joining with commas gives back the original string. */
  lemma {:induction false} JoinSplit(s: string)
    ensures JoinComma(SplitComma(s)) == s
  {
    if s != [] {
      var rest := SplitComma(s[1..]);
      JoinSplit(s[1..]);
      if s[0] == ',' {
        assert SplitComma(s)[1..] == rest;
      } else {
        var parts := SplitComma(s);
        if |rest| == 1 {
          assert parts == [[s[0]] + rest[0]];
        } else {
          assert parts[1..] == rest[1..];
          assert JoinComma(rest) == rest[0] + "," + JoinComma(rest[1..]);
        }
      }
    }
  }

  /** There is one piece more than there are commas. */
  lemma {:induction false} SplitCount(s: string)
    ensures |SplitComma(s)| == Occurrences(s, ',') + 1
  {
    if s != [] {
      SplitCount(s[1..]);
    }
  }
}
