/** The e-mail shape test (`validate_email`): Python's `re.match` with the
    pattern local-part `@` domain `.` letters, anchored by `^` and `$`. */
module Email {

  predicate IsAsciiLetter(c: char) {
    ('a' <= c <= 'z') || ('A' <= c <= 'Z')
  }

  predicate IsDigit(c: char) {
    '0' <= c <= '9'
  }

  /** `[a-zA-Z0-9._%+-]` */
  predicate IsLocalChar(c: char) {
    IsAsciiLetter(c) || IsDigit(c) || c == '.' || c == '_' || c == '%' || c == '+' || c == '-'
  }

  /** `[a-zA-Z0-9.-]` */
  predicate IsDomainChar(c: char) {
    IsAsciiLetter(c) || IsDigit(c) || c == '.' || c == '-'
  }

  predicate AllLocal(s: string) {
    forall k :: 0 <= k < |s| ==> IsLocalChar(s[k])
  }

  predicate AllDomain(s: string) {
    forall k :: 0 <= k < |s| ==> IsDomainChar(s[k])
  }

  predicate AllLetters(s: string) {
    forall k :: 0 <= k < |s| ==> IsAsciiLetter(s[k])
  }

  /** `s` reads as local part `s[..at]`, `@`, domain `s[at+1..dot]`, `.`,
      and top-level part `s[dot+1..]`, each part within its character class
      and of its minimum length (1, 1 and 2). */
  ghost predicate SplitsAt(s: string, at: int, dot: int) {
    && 1 <= at
    && at + 2 <= dot
    && dot + 3 <= |s|
    && s[at] == '@'
    && s[dot] == '.'
    && AllLocal(s[..at])
    && AllDomain(s[at + 1..dot])
    && AllLetters(s[dot + 1..])
  }

  /** The pattern matches all of `s`. */
  ghost predicate MatchesWhole(s: string) {
    exists at, dot :: SplitsAt(s, at, dot)
  }

  /** What `re.match` with a final `$` accepts: the pattern matching all of
      `s`, or all of `s` but a final newline. */
  ghost predicate PatternMatches(s: string) {
    || MatchesWhole(s)
    || (|s| > 0 && s[|s| - 1] == '\n' && MatchesWhole(s[..|s| - 1]))
  }

  /** Position of the first `c` in `s`, or `|s|` when there is none. */
  function IndexOf(s: string, c: char): (i: nat)
    ensures i <= |s|
    ensures i < |s| ==> s[i] == c
    ensures forall k :: 0 <= k < i ==> s[k] != c
  {
    if |s| == 0 then 0
    else if s[0] == c then 0
    else 1 + IndexOf(s[1..], c)
  }

  /** Position of the last `c` in `s`, or -1 when there is none. */
  function LastIndexOf(s: string, c: char): (i: int)
    ensures -1 <= i < |s|
    ensures 0 <= i ==> s[i] == c
    ensures forall k :: i < k < |s| ==> s[k] != c
  {
    if |s| == 0 then -1
    else if s[|s| - 1] == c then |s| - 1
    else LastIndexOf(s[..|s| - 1], c)
  }

  /** The part after `@`: the top-level part is what follows the last dot,
      since it holds letters only. */
  predicate DomainShape(t: string) {
    var dot := LastIndexOf(t, '.');
    && 1 <= dot
    && dot + 3 <= |t|
    && AllDomain(t[..dot])
    && AllLetters(t[dot + 1..])
  }

  /** The local part ends at the first `@`, since it cannot hold one. */
  predicate Shape(s: string) {
    var at := IndexOf(s, '@');
    && 1 <= at < |s|
    && AllLocal(s[..at])
    && DomainShape(s[at + 1..])
  }

  lemma ShapeGivesSplit(s: string)
    requires Shape(s)
    ensures MatchesWhole(s)
  {
    var at := IndexOf(s, '@');
    var t := s[at + 1..];
    var d := LastIndexOf(t, '.');
    var dot := at + 1 + d;
    assert s[at + 1..dot] == t[..d];
    assert s[dot + 1..] == t[d + 1..];
    assert SplitsAt(s, at, dot);
  }

  /** The first `@` ends the local part, which cannot hold one. */
  lemma FirstAtEndsLocalPart(s: string, at: int, dot: int)
    requires SplitsAt(s, at, dot)
    ensures IndexOf(s, '@') == at
  {
    var local := s[..at];
    assert forall k :: 0 <= k < at ==> s[k] == local[k] && IsLocalChar(local[k]);
  }

  /** The last dot starts the top-level part, which holds letters only. */
  lemma LastDotStartsSuffix(s: string, at: int, dot: int)
    requires SplitsAt(s, at, dot)
    ensures LastIndexOf(s[at + 1..], '.') == dot - at - 1
  {
    var t := s[at + 1..];
    var suffix := s[dot + 1..];
    assert forall k :: dot - at - 1 < k < |t| ==> t[k] == suffix[k - (dot - at)] && IsAsciiLetter(suffix[k - (dot - at)]);
  }

  lemma SplitGivesShape(s: string, at: int, dot: int)
    requires SplitsAt(s, at, dot)
    ensures Shape(s)
  {
    FirstAtEndsLocalPart(s, at, dot);
    LastDotStartsSuffix(s, at, dot);
    var t := s[at + 1..];
    var d := dot - at - 1;
    assert t[..d] == s[at + 1..dot];
    assert t[d + 1..] == s[dot + 1..];
  }

  lemma ShapeIffMatchesWhole(s: string)
    ensures Shape(s) <==> MatchesWhole(s)
  {
    if Shape(s) {
      ShapeGivesSplit(s);
    }
    if MatchesWhole(s) {
      var at, dot :| SplitsAt(s, at, dot);
      SplitGivesShape(s, at, dot);
    }
  }

  /** `validate_email(s)`: the pattern test, also trying `s` without a
      final newline, which `$` allows to follow a match. */
  predicate ValidateEmail(s: string) {
    || Shape(s)
    || (|s| > 0 && s[|s| - 1] == '\n' && Shape(s[..|s| - 1]))
  }

  /** `validate_email` accepts exactly the strings the anchored pattern
      matches. */
  lemma ValidateEmailMatchesPattern(s: string)
    ensures ValidateEmail(s) <==> PatternMatches(s)
  {
    ShapeIffMatchesWhole(s);
    if |s| > 0 {
      ShapeIffMatchesWhole(s[..|s| - 1]);
    }
  }

  /** Without a trailing newline the test is the plain pattern. */
  lemma NoNewlineMeansWholeMatch(s: string)
    requires s == [] || s[|s| - 1] != '\n'
    ensures ValidateEmail(s) <==> MatchesWhole(s)
  {
    ValidateEmailMatchesPattern(s);
  }

  /** An accepted string (without a trailing newline) holds an `@` and ends
      in two letters; so a string lacking either is rejected. */
  lemma AcceptedHasAtAndLetterEnding(s: string)
    requires s == [] || s[|s| - 1] != '\n'
    requires ValidateEmail(s)
    ensures exists k :: 0 <= k < |s| && s[k] == '@'
    ensures |s| >= 3 && IsAsciiLetter(s[|s| - 2]) && IsAsciiLetter(s[|s| - 1])
  {
    ValidateEmailMatchesPattern(s);
    var at, dot :| SplitsAt(s, at, dot);
    var suffix := s[dot + 1..];
    assert s[|s| - 2] == suffix[|suffix| - 2];
    assert s[|s| - 1] == suffix[|suffix| - 1];
  }

  /** Every accepted string holds an `@`, with or without a final newline;
      so a string with no `@` is rejected. */
  lemma AcceptedHasAt(s: string)
    requires ValidateEmail(s)
    ensures exists k :: 0 <= k < |s| && s[k] == '@'
  {
    if Shape(s) {
      var at := IndexOf(s, '@');
      assert s[at] == '@';
    } else {
      var t := s[..|s| - 1];
      var at := IndexOf(t, '@');
      assert s[at] == t[at] == '@';
    }
  }

  /** A valid address has exactly one `@`, with something before it; a
      final newline, which `$` lets through, is not an `@`. */
  lemma ValidHasOneAt(s: string)
    requires ValidateEmail(s)
    ensures exists at :: 1 <= at < |s| && s[at] == '@' && forall k :: 0 <= k < |s| && k != at ==> s[k] != '@'
  {
    if Shape(s) {
      ShapeGivesSplit(s);
      var at, dot :| SplitsAt(s, at, dot);
      SplitHasOneAt(s, at, dot);
    } else {
      var t := s[..|s| - 1];
      ShapeGivesSplit(t);
      var at, dot :| SplitsAt(t, at, dot);
      SplitHasOneAt(t, at, dot);
      forall k | 0 <= k < |s| && k != at
        ensures s[k] != '@'
      {
        if k < |t| {
          assert s[k] == t[k];
        }
      }
      assert s[at] == t[at];
    }
  }

  /** In a split string the separating `@` is the only one. */
  lemma SplitHasOneAt(t: string, at: int, dot: int)
    requires SplitsAt(t, at, dot)
    ensures forall k :: 0 <= k < |t| && k != at ==> t[k] != '@'
  {
    forall k | 0 <= k < |t| && k != at
      ensures t[k] != '@'
    {
      OnlyOneAt(t, at, dot, k);
    }
  }

  lemma OnlyOneAt(s: string, at: int, dot: int, k: int)
    requires SplitsAt(s, at, dot)
    requires 0 <= k < |s| && k != at
    ensures s[k] != '@'
  {
    if k < at {
      assert s[k] == s[..at][k];
    } else if k < dot {
      assert s[k] == s[at + 1..dot][k - at - 1];
    } else if k > dot {
      assert s[k] == s[dot + 1..][k - dot - 1];
    }
  }

  /** An ordinary address is accepted, and so is the same address followed
      by one newline, which `$` lets through. */
  lemma ExampleAccepted()
    ensures ValidateEmail("a@b.co")
  {
    var s := "a@b.co";
    assert s[..1] == "a" && s[2..3] == "b" && s[4..] == "co";
    assert SplitsAt(s, 1, 3);
    SplitGivesShape(s, 1, 3);
  }

  /** Because `$` may match before a final newline, an accepted address
      followed by one newline is accepted too. */
  lemma NewlineAfterMatchAccepted(s: string)
    requires MatchesWhole(s)
    ensures ValidateEmail(s + "\n")
  {
    ShapeIffMatchesWhole(s);
    assert (s + "\n")[..|s|] == s;
  }
}
