/** The input validator `validateMessage` of the relay: an ordered sequence
    of checks on the decoded request (presence, e-mail shape, length caps). */
module Validation {
  import opened Text

  /** The decoded JSON payload: recipient, subject and body. */
  datatype Message = Message(email: Bytes, subject: Bytes, body: Bytes)

  /** The four ways validation can fail, in the order they are checked. */
  datatype ValidationError = MissingField | BadEmailFormat | SubjectTooLong | BodyTooLong

  const MaxSubjectLength: nat := 25
  const MaxBodyLength: nat := 1000

  const InvalidPrefix: Bytes := "invalid "
  const InvalidMessagePrefix: Bytes := InvalidPrefix + "message: "

  /** The message of the error value the validator returns. Every message
      starts with "invalid "; all but the format error carry the
      "invalid message: " prefix. */
  function ErrorText(e: ValidationError): (t: Bytes)
    ensures InvalidPrefix <= t
    ensures InvalidMessagePrefix <= t <==> e != BadEmailFormat
  {
    match e
    case MissingField => InvalidMessagePrefix + "email, subject, and body are required"
    case BadEmailFormat =>
      var t: Bytes := InvalidPrefix + "email format";
      assert t[8] == 'e' && InvalidMessagePrefix[8] == 'm';
      t
    case SubjectTooLong => InvalidMessagePrefix + "subject is too long"
    case BodyTooLong => InvalidMessagePrefix + "body is too long"
  }

  // Character classes of the pattern ^[a-zA-Z0-9._%+-]+@[a-zA-Z0-9.-]+\.[a-zA-Z]{2,}$

  predicate IsLetter(c: Byte) {
    ('a' <= c <= 'z') || ('A' <= c <= 'Z')
  }

  predicate IsDigit(c: Byte) {
    '0' <= c <= '9'
  }

  /** `[a-zA-Z0-9._%+-]` */
  predicate IsLocalChar(c: Byte) {
    IsLetter(c) || IsDigit(c) || c == '.' || c == '_' || c == '%' || c == '+' || c == '-'
  }

  /** `[a-zA-Z0-9.-]` */
  predicate IsDomainChar(c: Byte) {
    IsLetter(c) || IsDigit(c) || c == '.' || c == '-'
  }

  predicate AllLocal(s: Bytes) {
    forall i :: 0 <= i < |s| ==> IsLocalChar(s[i])
  }

  predicate AllDomain(s: Bytes) {
    forall i :: 0 <= i < |s| ==> IsDomainChar(s[i])
  }

  predicate AllLetters(s: Bytes) {
    forall i :: 0 <= i < |s| ==> IsLetter(s[i])
  }

  /** `s` reads as L "@" D "." T with the '@' at `at` and the '.' at `dot`:
      L = s[..at] non-empty over the local class, D = s[at+1..dot] non-empty
      over the domain class, T = s[dot+1..] at least two letters. */
  ghost predicate SplitsAsEmail(s: Bytes, at: int, dot: int) {
    && 1 <= at && at + 2 <= dot && dot + 3 <= |s|
    && AllLocal(s[..at]) && s[at] == '@'
    && AllDomain(s[at + 1..dot]) && s[dot] == '.'
    && AllLetters(s[dot + 1..])
  }

  /** The language of the anchored pattern: some way of splitting `s` fits it. */
  ghost predicate EmailPattern(s: Bytes) {
    exists at, dot :: SplitsAsEmail(s, at, dot)
  }

  /** Index of the first `c` in `s`. */
  function IndexOf(s: Bytes, c: Byte): (r: Option<nat>)
    ensures r.Some? ==> r.value < |s| && s[r.value] == c
    ensures r.Some? ==> forall j :: 0 <= j < r.value ==> s[j] != c
    ensures r.None? ==> forall j :: 0 <= j < |s| ==> s[j] != c
  {
    if |s| == 0 then None
    else if s[0] == c then Some(0)
    else match IndexOf(s[1..], c)
      case None => None
      case Some(i) => Some(i + 1)
  }

  /** Index of the last `c` in `s`. */
  function LastIndexOf(s: Bytes, c: Byte): (r: Option<nat>)
    ensures r.Some? ==> r.value < |s| && s[r.value] == c
    ensures r.Some? ==> forall j :: r.value < j < |s| ==> s[j] != c
    ensures r.None? ==> forall j :: 0 <= j < |s| ==> s[j] != c
  {
    if |s| == 0 then None
    else if s[|s| - 1] == c then Some(|s| - 1)
    else LastIndexOf(s[..|s| - 1], c)
  }

  /** The split the matcher tries: neither the local part nor the domain
      part may hold an '@', so the split is at the first '@'; the top-level
      domain holds no '.', so the domain splits at its last '.'. */
  function SplitAtFirstAtLastDot(s: Bytes): bool {
    match IndexOf(s, '@')
    case None => false
    case Some(at) =>
      var domain := s[at + 1..];
      match LastIndexOf(domain, '.')
      case None => false
      case Some(k) =>
        && 1 <= at && AllLocal(s[..at])
        && 1 <= k && AllDomain(domain[..k])
        && k + 3 <= |domain| && AllLetters(domain[k + 1..])
  }

  /** The first '@' is at `at` when `s[at]` is one and none comes before. */
  lemma IndexOfIs(s: Bytes, c: Byte, at: nat)
    requires at < |s| && s[at] == c
    requires forall j :: 0 <= j < at ==> s[j] != c
    ensures IndexOf(s, c) == Some(at)
  {
  }

  /** The last '.' is at `k` when `s[k]` is one and none comes after. */
  lemma LastIndexOfIs(s: Bytes, c: Byte, k: nat)
    requires k < |s| && s[k] == c
    requires forall j :: k < j < |s| ==> s[j] != c
    ensures LastIndexOf(s, c) == Some(k)
  {
  }

  lemma MatchesImpliesPattern(s: Bytes)
    requires SplitAtFirstAtLastDot(s)
    ensures EmailPattern(s)
  {
    var at := IndexOf(s, '@').value;
    var domain := s[at + 1..];
    var k := LastIndexOf(domain, '.').value;
    var dot := at + 1 + k;
    assert s[at + 1..dot] == domain[..k];
    assert s[dot + 1..] == domain[k + 1..];
    assert SplitsAsEmail(s, at, dot);
  }

  /** In a split, the '@' is the first one and the '.' the last one. */
  lemma SplitIsFirstAtLastDot(s: Bytes, at: int, dot: int)
    requires SplitsAsEmail(s, at, dot)
    ensures forall j :: 0 <= j < at ==> s[j] != '@'
    ensures forall j :: dot < j < |s| ==> s[j] != '.'
  {
    var local, tld := s[..at], s[dot + 1..];
    assert forall j :: 0 <= j < at ==> s[j] == local[j];
    assert forall j :: dot < j < |s| ==> s[j] == tld[j - dot - 1];
  }

  lemma PatternImpliesMatches(s: Bytes, at: int, dot: int)
    requires SplitsAsEmail(s, at, dot)
    ensures SplitAtFirstAtLastDot(s)
  {
    SplitIsFirstAtLastDot(s, at, dot);
    IndexOfIs(s, '@', at);
    var domain := s[at + 1..];
    var k := dot - at - 1;
    assert forall j :: k < j < |domain| ==> domain[j] == s[at + 1 + j];
    LastIndexOfIs(domain, '.', k);
    assert domain[..k] == s[at + 1..dot];
    assert domain[k + 1..] == s[dot + 1..];
  }

  /** The first-'@', last-'.' split accepts exactly the strings of the pattern. */
  lemma SplitMatchesPattern(s: Bytes)
    ensures SplitAtFirstAtLastDot(s) <==> EmailPattern(s)
  {
    if SplitAtFirstAtLastDot(s) {
      MatchesImpliesPattern(s);
    }
    if EmailPattern(s) {
      var at, dot :| SplitsAsEmail(s, at, dot);
      PatternImpliesMatches(s, at, dot);
    }
  }

  /** A two-letter top-level domain is the shortest accepted. */
  lemma ShortestTopLevelDomain()
    ensures EmailPattern("a@b.co")
    ensures !EmailPattern("a@b.c")
  {
    assert SplitsAsEmail("a@b.co", 1, 3);
  }

  /** A trailing newline, an inner space or a second '@' is rejected: the
      `$` anchor matches only at the very end of the text. */
  lemma RejectedExamples()
    ensures !EmailPattern("a@b.co\n")
    ensures !EmailPattern("a b@c.de")
    ensures !EmailPattern("a@b@c.de")
  {
    var newline: Bytes := "a@b.co\n";
    assert newline[6] == '\n';
    if EmailPattern(newline) {
      PatternEmailNoBreaks(newline);
    }
    var space: Bytes := "a b@c.de";
    assert space[1] == ' ';
    if EmailPattern(space) {
      PatternEmailNoBreaks(space);
    }
    var twoAts: Bytes := "a@b@c.de";
    assert twoAts[1] == '@' && twoAts[3] == '@';
    if EmailPattern(twoAts) {
      PatternEmailOneAt(twoAts);
    }
  }

  /** The hand-written matcher for the pattern of `validateMessage`. */
  function EmailMatches(s: Bytes): (r: bool)
    ensures r <==> EmailPattern(s)
  {
    SplitMatchesPattern(s);
    SplitAtFirstAtLastDot(s)
  }

  /** All three fields are non-empty. */
  predicate Present(m: Message) {
    m.email != [] && m.subject != [] && m.body != []
  }

  /** What the validator accepts, stated with the pattern's language. */
  ghost predicate Acceptable(m: Message) {
    && Present(m)
    && EmailPattern(m.email)
    && |m.subject| <= MaxSubjectLength
    && |m.body| <= MaxBodyLength
  }

  /** `validateMessage`: None is Go's nil error. Validation passes iff every
      field is present, the recipient is in the pattern's language and both
      lengths are within their caps. */
  function Validate(m: Message): (r: Option<ValidationError>)
    ensures r == None <==> Acceptable(m)
  {
    if !Present(m) then Some(MissingField)
    else if !EmailMatches(m.email) then Some(BadEmailFormat)
    else if |m.subject| > MaxSubjectLength then Some(SubjectTooLong)
    else if |m.body| > MaxBodyLength then Some(BodyTooLong)
    else None
  }

  /** The subject is checked only for presence and length: a subject that
      carries a CRLF and a second header passes validation. */
  lemma SubjectLineBreakPassesValidation()
    ensures Validate(Message("a@b.co", "hi" + CRLF + "Bcc: x@y.zz", "b")) == None
  {
    ShortestTopLevelDomain();
  }

  /** Which error is reported: the first failing check in the order
      presence, e-mail format, subject length, body length. */
  lemma ValidateReportsFirstFailure(m: Message)
    ensures Validate(m) == Some(MissingField) <==> !Present(m)
    ensures Validate(m) == Some(BadEmailFormat) <==> Present(m) && !EmailPattern(m.email)
    ensures Validate(m) == Some(SubjectTooLong)
        <==> Present(m) && EmailPattern(m.email) && |m.subject| > MaxSubjectLength
    ensures Validate(m) == Some(BodyTooLong)
        <==> Present(m) && EmailPattern(m.email) && |m.subject| <= MaxSubjectLength
             && |m.body| > MaxBodyLength
  {
  }

  /** A subject of exactly 25 bytes passes the subject check; one of 26
      bytes fails it (the other fields being acceptable). */
  lemma SubjectCapBoundary(m: Message)
    requires Present(m) && EmailPattern(m.email) && |m.body| <= MaxBodyLength
    ensures |m.subject| == 25 ==> Validate(m) == None
    ensures |m.subject| == 26 ==> Validate(m) == Some(SubjectTooLong)
  {
    ValidateReportsFirstFailure(m);
  }

  /** A body of exactly 1000 bytes passes the body check; one of 1001 bytes
      fails it (the other fields being acceptable). */
  lemma BodyCapBoundary(m: Message)
    requires Present(m) && EmailPattern(m.email) && |m.subject| <= MaxSubjectLength
    ensures |m.body| == 1000 ==> Validate(m) == None
    ensures |m.body| == 1001 ==> Validate(m) == Some(BodyTooLong)
  {
    ValidateReportsFirstFailure(m);
  }

  /** Every byte of a recipient in the pattern's language is in the domain
      class, in the local class, or is the one '@'. */
  lemma PatternBytes(s: Bytes, at: int, dot: int, i: int)
    requires SplitsAsEmail(s, at, dot) && 0 <= i < |s|
    ensures i == at <==> s[i] == '@'
    ensures i != at ==> IsLocalChar(s[i]) || IsDomainChar(s[i])
  {
    if i < at {
      assert s[i] == s[..at][i];
    } else if at < i < dot {
      assert s[i] == s[at + 1..dot][i - at - 1];
    } else if dot < i {
      assert s[i] == s[dot + 1..][i - dot - 1];
    }
  }

  /** A recipient in the pattern's language holds exactly one '@'. */
  lemma PatternEmailOneAt(s: Bytes)
    requires EmailPattern(s)
    ensures exists at :: 0 <= at < |s| && s[at] == '@'
                         && forall j :: 0 <= j < |s| && s[j] == '@' ==> j == at
  {
    var at, dot :| SplitsAsEmail(s, at, dot);
    forall j | 0 <= j < |s| && s[j] == '@'
      ensures j == at
    {
      PatternBytes(s, at, dot, j);
    }
  }

  /** A recipient in the pattern's language holds no carriage return, line
      feed or space. */
  lemma PatternEmailNoBreaks(s: Bytes)
    requires EmailPattern(s)
    ensures NoLineBreak(s)
    ensures forall i :: 0 <= i < |s| ==> s[i] != ' '
  {
    var at, dot :| SplitsAsEmail(s, at, dot);
    forall i | 0 <= i < |s|
      ensures s[i] != '\r' && s[i] != '\n' && s[i] != ' '
    {
      PatternBytes(s, at, dot, i);
    }
  }

  /** A recipient that passed validation cannot split the `To:` header line. */
  lemma ValidatedRecipientHasNoLineBreak(m: Message)
    requires Validate(m) == None
    ensures NoLineBreak(m.email)
  {
    PatternEmailNoBreaks(m.email);
  }

  /** The four error messages are pairwise distinct, so the verbatim text in
      a response tells the caller which check failed. */
  lemma ErrorTextDistinct(e1: ValidationError, e2: ValidationError)
    ensures ErrorText(e1) == ErrorText(e2) <==> e1 == e2
  {
    if e1 != e2 {
      assert |ErrorText(e1)| != |ErrorText(e2)|;
    }
  }
}
