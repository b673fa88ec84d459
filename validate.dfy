/**
 * The registration validators. A username is 5 to 16 bytes (UTF-8) of
 * `[A-Za-z0-9_-]`, checked in that order. An email must match
 * `^[A-Za-z0-9._%+-]+@[A-Za-z0-9.-]+\.[A-Z|a-z]{2,}$`, here transcribed as
 * `MatchesEmailPattern` and decided by `ValidateEmail` without a regex
 * engine.
 */
module Validate {
  import opened Wrappers
  import opened Text

  const USERNAME_LENGTH_ERROR: string := "Username length must be between 5 and 16 characters"
  const USERNAME_FORMAT_ERROR: string := "Username must contain only letters, numbers, underscores or hyphens"
  const EMAIL_FORMAT_ERROR: string := "Email format is invalid"

  /** Bytes of `c` in UTF-8. */
  function Utf8Width(c: char): (w: nat)
    ensures 1 <= w <= 4
    ensures w == 1 <==> c as int < 0x80
  {
    if c as int < 0x80 then 1
    else if c as int < 0x800 then 2
    else if c as int < 0x1_0000 then 3
    else 4
  }

  /** Rust's `str::len`: the length in UTF-8 bytes. */
  function Utf8Len(s: string): (n: nat)
    ensures n >= |s|
  {
    if s == [] then 0 else Utf8Width(s[0]) + Utf8Len(s[1..])
  }

  predicate IsAscii(c: char) {
    c as int < 0x80
  }

  /** The byte length equals the character count exactly when every character is ASCII. */
  lemma {:induction false} Utf8LenIsCountIffAscii(s: string)
    ensures Utf8Len(s) == |s| <==> AllChars(s, IsAscii)
  {
    if s != [] {
      Utf8LenIsCountIffAscii(s[1..]);
      if AllChars(s[1..], IsAscii) && IsAscii(s[0]) {
        assert forall i :: 1 <= i < |s| ==> s[i] == s[1..][i - 1];
      }
      if AllChars(s, IsAscii) {
        assert forall i :: 0 <= i < |s[1..]| ==> s[1..][i] == s[i + 1];
      }
    }
  }

  predicate IsAsciiLetter(c: char) {
    'A' <= c <= 'Z' || 'a' <= c <= 'z'
  }

  predicate IsAsciiDigit(c: char) {
    '0' <= c <= '9'
  }

  /** `[A-Za-z0-9_-]`. */
  predicate UsernameChar(c: char) {
    IsAsciiLetter(c) || IsAsciiDigit(c) || c == '_' || c == '-'
  }

  /**
   * `validate_username`: the byte length is checked first, so a name of the
   * wrong length gets the length error whatever its characters.
   */
  function ValidateUsername(username: string): (r: Result<(), string>)
    ensures r.Ok? <==> 5 <= Utf8Len(username) <= 16 && AllChars(username, UsernameChar)
    ensures !(5 <= Utf8Len(username) <= 16) ==> r == Err(USERNAME_LENGTH_ERROR)
    ensures 5 <= Utf8Len(username) <= 16 && !AllChars(username, UsernameChar) ==> r == Err(USERNAME_FORMAT_ERROR)
  {
    if Utf8Len(username) < 5 || Utf8Len(username) > 16 then Err(USERNAME_LENGTH_ERROR)
    else if !AllChars(username, UsernameChar) then Err(USERNAME_FORMAT_ERROR)
    else Ok(())
  }

  /** None of the validators' character classes holds a whitespace character. */
  lemma ClassesExcludeWhitespace(c: char)
    requires UsernameChar(c) || LocalChar(c) || DomainChar(c) || TldChar(c)
    ensures !IsWhitespace(c) && c as int < 0x80
  {
  }

  /** An accepted username is ASCII, so it also has 5 to 16 characters. */
  lemma AcceptedUsernameIsAscii(username: string)
    requires ValidateUsername(username).Ok?
    ensures Utf8Len(username) == |username| && 5 <= |username| <= 16
  {
    UsernameCharsAreAscii(username);
    Utf8LenIsCountIffAscii(username);
  }

  lemma UsernameCharsAreAscii(s: string)
    requires AllChars(s, UsernameChar)
    ensures AllChars(s, IsAscii)
  {
    forall i | 0 <= i < |s|
      ensures IsAscii(s[i])
    {
      assert UsernameChar(s[i]);
    }
  }

  /** An accepted username holds no whitespace. */
  lemma AcceptedUsernameHasNoWhitespace(username: string)
    requires ValidateUsername(username).Ok?
    ensures forall i :: 0 <= i < |username| ==> !IsWhitespace(username[i])
  {
    forall i | 0 <= i < |username|
      ensures !IsWhitespace(username[i])
    {
      ClassesExcludeWhitespace(username[i]);
    }
  }

  /** `[A-Za-z0-9._%+-]`, the local part. */
  predicate LocalChar(c: char) {
    IsAsciiLetter(c) || IsAsciiDigit(c) || c in "._%+-"
  }

  /** `[A-Za-z0-9.-]`, the domain before the last dot. */
  predicate DomainChar(c: char) {
    IsAsciiLetter(c) || IsAsciiDigit(c) || c == '.' || c == '-'
  }

  /** `[A-Z|a-z]`: inside a class `|` is a literal character. */
  predicate TldChar(c: char) {
    IsAsciiLetter(c) || c == '|'
  }

  /** The regex matches `email` with its `@` at `at` and its `\.` at `dot`. */
  predicate EmailSplitAt(email: string, at: int, dot: int) {
    && 0 < at < dot < |email|
    && email[at] == '@' && email[dot] == '.'
    && AllChars(email[..at], LocalChar)
    && at + 1 < dot && AllChars(email[at + 1..dot], DomainChar)
    && |email| - (dot + 1) >= 2 && AllChars(email[dot + 1..], TldChar)
  }

  /** The email regex, anchored at both ends. */
  ghost predicate MatchesEmailPattern(email: string) {
    exists at, dot :: EmailSplitAt(email, at, dot)
  }

  /**
   * `validate_email`, decided directly: the `@` must be the first one and the
   * `\.` the last dot, because no character class after them admits
   * another.
   */
  function ValidateEmail(email: string): (r: Result<(), string>)
    ensures r.Err? ==> r.error == EMAIL_FORMAT_ERROR
  {
    match FirstIndexOf(email, '@')
    case None => Err(EMAIL_FORMAT_ERROR)
    case Some(at) =>
      match LastIndexOf(email, '.')
      case None => Err(EMAIL_FORMAT_ERROR)
      case Some(dot) =>
        if 0 < at && at + 1 < dot && EmailSplitAt(email, at, dot) then Ok(()) else Err(EMAIL_FORMAT_ERROR)
  }

  /** An `@` preceded only by local-part characters is the first `@`. */
  lemma FirstAtForced(email: string, at: nat)
    requires at < |email| && email[at] == '@' && AllChars(email[..at], LocalChar)
    ensures FirstIndexOf(email, '@') == Some(at)
  {
    forall i | 0 <= i < at
      ensures email[i] != '@'
    {
      assert LocalChar(email[..at][i]);
    }
  }

  /** A `.` followed only by top-level-domain characters is the last dot. */
  lemma LastDotForced(email: string, dot: nat)
    requires dot < |email| && email[dot] == '.' && AllChars(email[dot + 1..], TldChar)
    ensures LastIndexOf(email, '.') == Some(dot)
  {
    forall i | dot < i < |email|
      ensures email[i] != '.'
    {
      assert TldChar(email[dot + 1..][i - dot - 1]);
    }
  }

  /** In a match, the `@` is the only one and the `\.` is the last dot. */
  lemma SplitIsForced(email: string, at: int, dot: int)
    requires EmailSplitAt(email, at, dot)
    ensures FirstIndexOf(email, '@') == Some(at)
    ensures LastIndexOf(email, '.') == Some(dot)
  {
    FirstAtForced(email, at);
    LastDotForced(email, dot);
  }

  /** `ValidateEmail` accepts exactly the texts the regex matches. */
  lemma ValidateEmailMatchesPattern(email: string)
    ensures ValidateEmail(email).Ok? <==> MatchesEmailPattern(email)
  {
    if ValidateEmail(email).Ok? {
      var at := FirstIndexOf(email, '@').value;
      var dot := LastIndexOf(email, '.').value;
      assert EmailSplitAt(email, at, dot);
    }
    if MatchesEmailPattern(email) {
      var at, dot :| EmailSplitAt(email, at, dot);
      SplitIsForced(email, at, dot);
    }
  }

  lemma NoneIn(s: string, p: char -> bool, c: char)
    requires AllChars(s, p) && !p(c)
    ensures c !in s
  {
  }

  /** A character present at `k` and nowhere else occurs once. */
  lemma OccursOnce(s: string, k: nat, c: char)
    requires k < |s| && s[k] == c && c !in s[..k] && c !in s[k + 1..]
    ensures multiset(s)[c] == 1
  {
    assert s == s[..k] + [c] + s[k + 1..];
    assert multiset(s) == multiset(s[..k]) + multiset([c]) + multiset(s[k + 1..]);
  }

  /** An accepted email has exactly one `@`. */
  lemma AcceptedEmailHasOneAt(email: string)
    requires ValidateEmail(email).Ok?
    ensures multiset(email)['@'] == 1
  {
    var at := FirstIndexOf(email, '@').value;
    var dot := LastIndexOf(email, '.').value;
    assert EmailSplitAt(email, at, dot);
    var domain, tld := email[at + 1..dot], email[dot + 1..];
    NoneIn(domain, DomainChar, '@');
    NoneIn(tld, TldChar, '@');
    assert email[at + 1..] == domain + ['.'] + tld;
    OccursOnce(email, at, '@');
  }

  /** An accepted email holds no whitespace. */
  lemma AcceptedEmailHasNoWhitespace(email: string)
    requires ValidateEmail(email).Ok?
    ensures forall i :: 0 <= i < |email| ==> !IsWhitespace(email[i])
  {
    var at := FirstIndexOf(email, '@').value;
    var dot := LastIndexOf(email, '.').value;
    assert EmailSplitAt(email, at, dot);
    forall i | 0 <= i < |email|
      ensures !IsWhitespace(email[i])
    {
      if i < at {
        assert LocalChar(email[..at][i]);
        ClassesExcludeWhitespace(email[i]);
      } else if at < i < dot {
        assert DomainChar(email[at + 1..dot][i - at - 1]);
        ClassesExcludeWhitespace(email[i]);
      } else if dot < i {
        assert TldChar(email[dot + 1..][i - dot - 1]);
        ClassesExcludeWhitespace(email[i]);
      }
    }
  }

  /** The literal `|` in the top-level-domain class lets `a@b.c|` through. */
  lemma PipeInTopLevelDomainAccepted()
    ensures ValidateEmail("a@b.c|").Ok?
  {
    assert EmailSplitAt("a@b.c|", 1, 3);
    SplitIsForced("a@b.c|", 1, 3);
  }

  /** The top-level domain as evidently intended, `[A-Za-z]{2,}`. */
  function ValidateEmailLettersOnly(email: string): (r: Result<(), string>)
    ensures r.Err? ==> r.error == EMAIL_FORMAT_ERROR
  {
    match ValidateEmail(email)
    case Err(e) => Err(e)
    case Ok(_) =>
      var dot := LastIndexOf(email, '.').value;
      if AllChars(email[dot + 1..], IsAsciiLetter) then Ok(()) else Err(EMAIL_FORMAT_ERROR)
  }

  /** What `ValidateEmail` establishes about an address it accepts. */
  lemma AcceptedSplit(email: string)
    requires ValidateEmail(email).Ok?
    ensures LastIndexOf(email, '.').Some?
    ensures EmailSplitAt(email, FirstIndexOf(email, '@').value, LastIndexOf(email, '.').value)
  {
  }

  /**
   * The corrected validator accepts exactly what the written one accepts
   * minus the addresses with a `|` after the last dot.
   */
  lemma LettersOnlyAccepts(email: string)
    ensures ValidateEmailLettersOnly(email).Ok? <==>
      ValidateEmail(email).Ok? && '|' !in email[LastIndexOf(email, '.').value + 1..]
  {
    if ValidateEmail(email).Ok? {
      AcceptedSplit(email);
      var dot := LastIndexOf(email, '.').value;
      var tld := email[dot + 1..];
      assert AllChars(tld, TldChar);
      if '|' !in tld {
        forall i | 0 <= i < |tld|
          ensures IsAsciiLetter(tld[i])
        {
          assert TldChar(tld[i]);
        }
      }
      if AllChars(tld, IsAsciiLetter) {
        NoneIn(tld, IsAsciiLetter, '|');
      }
    }
  }

  /** Every address the corrected validator accepts ends in two or more ASCII letters after its last dot. */
  lemma LettersOnlyTopLevelDomain(email: string)
    requires ValidateEmailLettersOnly(email).Ok?
    ensures LastIndexOf(email, '.').Some?
    ensures |email[LastIndexOf(email, '.').value + 1..]| >= 2
    ensures AllChars(email[LastIndexOf(email, '.').value + 1..], IsAsciiLetter)
  {
    AcceptedSplit(email);
  }

  /** The corrected validator refuses the address the written one lets through. */
  lemma LettersOnlyRejectsPipe()
    ensures ValidateEmailLettersOnly("a@b.c|").Err?
  {
    PipeInTopLevelDomainAccepted();
    SplitIsForced("a@b.c|", 1, 3);
    assert "a@b.c|"[4..][1] == '|';
  }
}
