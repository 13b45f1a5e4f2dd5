/**
 * The character-class checks behind the sign-up and login forms
 * (src/pages/Signup.jsx, src/pages/Login.jsx). Each regular expression of the
 * source is written as a predicate over the characters of the input.
 */
module FormRules {
  predicate IsAsciiLetter(c: char) {
    'a' <= c <= 'z' || 'A' <= c <= 'Z'
  }

  /** `\d` in a JavaScript regular expression: ASCII digits only. */
  predicate IsAsciiDigit(c: char) {
    '0' <= c <= '9'
  }

  /** The range `가-힣`: the precomposed Hangul syllables U+AC00 to U+D7A3. */
  predicate IsHangulSyllable(c: char) {
    '\U{AC00}' <= c <= '\U{D7A3}'
  }

  /**
   * `\s` in a JavaScript regular expression: the ECMAScript WhiteSpace and
   * LineTerminator characters (tab, line feed, vertical tab, form feed,
   * carriage return, space, no-break space, U+1680, U+2000 to U+200A, line and
   * paragraph separators, U+202F, U+205F, U+3000 and the byte order mark).
   */
  predicate IsWhitespace(c: char) {
    || c == '\t' || c == '\n' || c == '\U{000B}' || c == '\U{000C}' || c == '\r'
    || c == ' ' || c == '\U{00A0}' || c == '\U{1680}'
    || ('\U{2000}' <= c <= '\U{200A}')
    || c == '\U{2028}' || c == '\U{2029}' || c == '\U{202F}' || c == '\U{205F}'
    || c == '\U{3000}' || c == '\U{FEFF}'
  }

  /** The class `[a-zA-Z0-9가-힣]`. */
  predicate IsNameChar(c: char) {
    IsAsciiLetter(c) || IsAsciiDigit(c) || IsHangulSyllable(c)
  }

  /** `/^[a-zA-Z0-9가-힣]{2,8}$/`: two to eight letters, digits or Hangul syllables. */
  predicate ValidUserName(s: string) {
    && 2 <= |s| <= 8
    && forall i :: 0 <= i < |s| ==> IsNameChar(s[i])
  }

  /** The class `[A-Za-z\d]`. */
  predicate IsPasswordChar(c: char) {
    IsAsciiLetter(c) || IsAsciiDigit(c)
  }

  /**
   * `/^(?=.*[A-Za-z])(?=.*\d)[A-Za-z\d]{6,}$/`: at least six ASCII letters and
   * digits, with at least one of each.
   */
  predicate ValidPassword(s: string) {
    && |s| >= 6
    && (forall i :: 0 <= i < |s| ==> IsPasswordChar(s[i]))
    && (exists i :: 0 <= i < |s| && IsAsciiLetter(s[i]))
    && (exists i :: 0 <= i < |s| && IsAsciiDigit(s[i]))
  }

  /** How many characters of `s` belong to the class `p`. */
  function CountWhere(s: string, p: char -> bool): (n: nat)
    ensures n <= |s|
  {
    if s == [] then 0 else (if p(s[0]) then 1 else 0) + CountWhere(s[1..], p)
  }

  /** Every character is in the class exactly when all of them are counted. */
  lemma {:induction false} CountAll(s: string, p: char -> bool)
    ensures CountWhere(s, p) == |s| <==> forall i :: 0 <= i < |s| ==> p(s[i])
  {
    if s != [] {
      CountAll(s[1..], p);
      assert forall i :: 1 <= i < |s| ==> s[i] == s[1..][i - 1];
    }
  }

  /** Some character is in the class exactly when the count is positive. */
  lemma {:induction false} CountSome(s: string, p: char -> bool)
    ensures CountWhere(s, p) > 0 <==> exists i :: 0 <= i < |s| && p(s[i])
  {
    if s != [] {
      CountSome(s[1..], p);
      if exists i :: 0 <= i < |s| && p(s[i]) {
        var i :| 0 <= i < |s| && p(s[i]);
        if i > 0 {
          assert p(s[1..][i - 1]);
        }
      }
      if exists j :: 0 <= j < |s[1..]| && p(s[1..][j]) {
        var j :| 0 <= j < |s[1..]| && p(s[1..][j]);
        assert p(s[j + 1]);
      }
    }
  }

  /** Two classes with no character in common: their counts add up to the count of their union. */
  lemma {:induction false} CountDisjoint(s: string, p: char -> bool, q: char -> bool, union: char -> bool)
    requires forall c :: !(p(c) && q(c))
    requires forall c :: union(c) == (p(c) || q(c))
    ensures CountWhere(s, p) + CountWhere(s, q) == CountWhere(s, union)
  {
    if s != [] {
      CountDisjoint(s[1..], p, q, union);
    }
  }

  /**
   * The name check read as counting: the length is within `{2,8}` and every
   * character is counted by the class.
   */
  lemma UserNameByCount(s: string)
    ensures ValidUserName(s) <==> 2 <= |s| <= 8 && CountWhere(s, IsNameChar) == |s|
  {
    CountAll(s, IsNameChar);
  }

  /**
   * The password check read as counting: each lookahead asks for a positive
   * count of its class, and the body `[A-Za-z\d]{6,}` asks that letters and
   * digits together make up all of at least six characters.
   */
  lemma PasswordByCount(s: string)
    ensures ValidPassword(s) <==>
      && |s| >= 6
      && CountWhere(s, IsAsciiLetter) > 0 && CountWhere(s, IsAsciiDigit) > 0
      && CountWhere(s, IsAsciiLetter) + CountWhere(s, IsAsciiDigit) == |s|
  {
    CountSome(s, IsAsciiLetter);
    CountSome(s, IsAsciiDigit);
    CountDisjoint(s, IsAsciiLetter, IsAsciiDigit, IsPasswordChar);
    CountAll(s, IsPasswordChar);
  }

  /** A run matched by `[^\s@]+`: non-empty, with no whitespace and no '@'. */
  predicate EmailRun(s: string) {
    && |s| >= 1
    && forall i :: 0 <= i < |s| ==> s[i] != '@' && !IsWhitespace(s[i])
  }

  /**
   * The text matches `/^[^\s@]+@[^\s@]+\.[^\s@]+$/`: some '@' and some later
   * '.' split it into three runs.
   */
  predicate MatchesEmailPattern(s: string) {
    exists at, dot ::
      && 0 <= at < dot < |s|
      && s[at] == '@' && s[dot] == '.'
      && EmailRun(s[..at]) && EmailRun(s[at + 1..dot]) && EmailRun(s[dot + 1..])
  }

  /** The domain contains a '.' that is neither its first nor its last character. */
  predicate HasInnerDot(domain: string) {
    exists k :: 0 < k < |domain| - 1 && domain[k] == '.'
  }

  /**
   * The shape of an address: exactly one '@', no whitespace anywhere, a
   * non-empty part before the '@', and a domain after it with an inner '.'.
   */
  predicate ValidEmail(s: string) {
    && multiset(s)['@'] == 1
    && (forall i :: 0 <= i < |s| ==> !IsWhitespace(s[i]))
    && exists at :: 0 < at < |s| && s[at] == '@' && HasInnerDot(s[at + 1..])
  }

  /** Splitting a text around one position splits the multiset count of a character. */
  lemma CountAround(s: string, at: nat, c: char)
    requires at < |s|
    ensures multiset(s)[c] == multiset(s[..at])[c] + multiset([s[at]])[c] + multiset(s[at + 1..])[c]
  {
    assert s == s[..at] + [s[at]] + s[at + 1..];
  }

  /** A stretch of a text is a run exactly when each of its characters is allowed in one. */
  lemma RunOfSlice(s: string, lo: nat, hi: nat)
    requires lo < hi <= |s|
    ensures EmailRun(s[lo..hi]) <==> forall i :: lo <= i < hi ==> s[i] != '@' && !IsWhitespace(s[i])
  {
    if forall i :: lo <= i < hi ==> s[i] != '@' && !IsWhitespace(s[i]) {
      forall j | 0 <= j < hi - lo ensures s[lo..hi][j] != '@' && !IsWhitespace(s[lo..hi][j]) {
        assert s[lo..hi][j] == s[lo + j];
      }
    }
    if EmailRun(s[lo..hi]) {
      forall i | lo <= i < hi ensures s[i] != '@' && !IsWhitespace(s[i]) {
        assert s[i] == s[lo..hi][i - lo];
      }
    }
  }

  /** With exactly one '@', the '@' at `at` is the only one. */
  lemma OnlyAt(s: string, at: nat)
    requires at < |s| && s[at] == '@' && multiset(s)['@'] == 1
    ensures forall i :: 0 <= i < |s| && i != at ==> s[i] != '@'
  {
    CountAround(s, at, '@');
    assert '@' !in multiset(s[..at]) && '@' !in multiset(s[at + 1..]);
    forall i | 0 <= i < |s| && i != at
      ensures s[i] != '@'
    {
      if i < at {
        assert s[i] in s[..at];
      } else {
        assert s[i] in s[at + 1..];
      }
    }
  }

  /** Every text the regular expression accepts has the stated shape. */
  lemma PatternIsValidEmail(s: string)
    requires MatchesEmailPattern(s)
    ensures ValidEmail(s)
  {
    var at, dot :|
      && 0 <= at < dot < |s|
      && s[at] == '@' && s[dot] == '.'
      && EmailRun(s[..at]) && EmailRun(s[at + 1..dot]) && EmailRun(s[dot + 1..]);
    assert s[..at] == s[0..at] && s[dot + 1..] == s[dot + 1..|s|];
    RunOfSlice(s, 0, at);
    RunOfSlice(s, at + 1, dot);
    RunOfSlice(s, dot + 1, |s|);
    forall i | 0 <= i < |s| && i != at ensures s[i] != '@' {
    }
    AtCountOne(s, at);
    forall i | 0 <= i < |s| ensures !IsWhitespace(s[i]) {
      if i == at || i == dot {
      }
    }
    var domain := s[at + 1..];
    assert domain[dot - at - 1] == '.';
  }

  /** A text whose only '@' sits at `at` counts exactly one '@'. */
  lemma AtCountOne(s: string, at: nat)
    requires at < |s| && s[at] == '@'
    requires forall i :: 0 <= i < |s| && i != at ==> s[i] != '@'
    ensures multiset(s)['@'] == 1
  {
    CountAround(s, at, '@');
    assert '@' !in s[..at];
    assert '@' !in s[at + 1..];
  }

  /** In a text without whitespace whose only '@' is at `at`, a stretch avoiding `at` is a run. */
  lemma RunAvoidingAt(s: string, at: nat, lo: nat, hi: nat)
    requires lo < hi <= |s| && (at < lo || hi <= at)
    requires forall i :: 0 <= i < |s| && i != at ==> s[i] != '@'
    requires forall i :: 0 <= i < |s| ==> !IsWhitespace(s[i])
    ensures EmailRun(s[lo..hi])
  {
    RunOfSlice(s, lo, hi);
  }

  /** The three runs and the two separators make a match. */
  lemma PatternWitness(s: string, at: nat, dot: nat)
    requires at < dot < |s| && s[at] == '@' && s[dot] == '.'
    requires EmailRun(s[0..at]) && EmailRun(s[at + 1..dot]) && EmailRun(s[dot + 1..|s|])
    ensures MatchesEmailPattern(s)
  {
    assert s[..at] == s[0..at] && s[dot + 1..] == s[dot + 1..|s|];
  }

  /** Every text of the stated shape is accepted by the regular expression. */
  lemma ValidEmailMatchesPattern(s: string)
    requires ValidEmail(s)
    ensures MatchesEmailPattern(s)
  {
    var at :| 0 < at < |s| && s[at] == '@' && HasInnerDot(s[at + 1..]);
    var domain := s[at + 1..];
    var k :| 0 < k < |domain| - 1 && domain[k] == '.';
    var dot := at + 1 + k;
    assert s[dot] == domain[k];
    OnlyAt(s, at);
    RunAvoidingAt(s, at, 0, at);
    RunAvoidingAt(s, at, at + 1, dot);
    RunAvoidingAt(s, at, dot + 1, |s|);
    PatternWitness(s, at, dot);
  }

  /** The regular expression accepts exactly the addresses of the stated shape. */
  lemma EmailPatternIff(s: string)
    ensures MatchesEmailPattern(s) <==> ValidEmail(s)
  {
    if MatchesEmailPattern(s) {
      PatternIsValidEmail(s);
    }
    if ValidEmail(s) {
      ValidEmailMatchesPattern(s);
    }
  }

  /** Sample user names on both sides of the check. */
  lemma UserNameExamples()
    ensures ValidUserName("홍길동") && ValidUserName("ab12")
    ensures !ValidUserName("a") && !ValidUserName("abcdefghi") && !ValidUserName("ab_1")
  {
    assert "ab_1"[2] == '_';
  }

  /** Sample passwords on both sides of the check. */
  lemma PasswordExamples()
    ensures ValidPassword("abc123")
    ensures !ValidPassword("abcdef") && !ValidPassword("ab12") && !ValidPassword("abc12!")
  {
    assert "abc123"[0] == 'a' && "abc123"[5] == '3';
    assert "abc12!"[5] == '!';
  }

  /** A sample address that passes. */
  lemma EmailAccepted()
    ensures ValidEmail("me@mail.com")
  {
    assert "me@mail.com"[3..][4] == '.';
    AddressShape("me@mail.com", 2);
  }

  /** Sample addresses that fail: two '@', whitespace, nothing before the '@'. */
  lemma EmailRejected()
    ensures !ValidEmail("a@b@c.d") && !ValidEmail("m e@mail.com") && !ValidEmail("@mail.com")
  {
    TwoAts("a@b@c.d", 1, 3);
    assert "m e@mail.com"[1] == ' ';
    OnlyAtAt("@mail.com", 0);
  }

  /** A domain without any '.' fails. */
  lemma EmailRejectedNoDot()
    ensures !ValidEmail("me@mail")
  {
    assert "me@mail"[3..] == "mail" && !HasInnerDot("mail");
    NoInnerDotAfterAt("me@mail", 2);
  }

  /** A domain whose only '.' comes first fails. */
  lemma EmailRejectedLeadingDot()
    ensures !ValidEmail("me@.com")
  {
    assert "me@.com"[3..] == ".com" && !HasInnerDot(".com");
    NoInnerDotAfterAt("me@.com", 2);
  }

  /** A domain whose only '.' comes last fails. */
  lemma EmailRejectedTrailingDot()
    ensures !ValidEmail("me@mail.")
  {
    assert "me@mail."[3..] == "mail." && !HasInnerDot("mail.");
    NoInnerDotAfterAt("me@mail.", 2);
  }

  /** The three conditions of the shape, established one at a time. */
  lemma AddressShape(s: string, at: nat)
    requires 0 < at < |s| && s[at] == '@' && HasInnerDot(s[at + 1..])
    requires forall i :: 0 <= i < |s| && i != at ==> s[i] != '@'
    requires forall i :: 0 <= i < |s| ==> !IsWhitespace(s[i])
    ensures ValidEmail(s)
  {
    AtCountOne(s, at);
  }

  /** Two '@' characters make the count wrong. */
  lemma TwoAts(s: string, i: nat, j: nat)
    requires i < j < |s| && s[i] == '@' && s[j] == '@'
    ensures !ValidEmail(s)
  {
    if multiset(s)['@'] == 1 {
      OnlyAt(s, i);
    }
  }

  /** With its only '@' first, the part before it is empty. */
  lemma OnlyAtAt(s: string, at: nat)
    requires at < |s| && s[at] == '@' && at == 0
    requires forall i :: 0 <= i < |s| && i != at ==> s[i] != '@'
    ensures !ValidEmail(s)
  {
  }

  /** An address whose only '@' is followed by a domain without an inner '.' is rejected. */
  lemma NoInnerDotAfterAt(s: string, at: nat)
    requires at < |s| && s[at] == '@' && !HasInnerDot(s[at + 1..])
    requires forall i :: 0 <= i < |s| && i != at ==> s[i] != '@'
    ensures !ValidEmail(s)
  {
  }
}
