/** The plain-text message `sendGmail` streams after DATA: a fixed header
    block in the layout of section 2.1 of RFC 5322 (with MIME-Version from
    section 4 of RFC 2045), an empty line, the body and a final CRLF. */
module MailFormat {
  import opened Text

  const FromField: Bytes := "From: "
  const ToField: Bytes := "To: "
  const SubjectField: Bytes := "Subject: "
  const MimeVersionLine: Bytes := "MIME-Version: 1.0"
  const ContentTypeLine: Bytes := "Content-Type: text/plain; charset=\"utf-8\""

  /** The five header fields in the order they are written. */
  function HeaderLines(from: Bytes, to: Bytes, subject: Bytes): seq<Bytes> {
    [FromField + from, ToField + to, SubjectField + subject, MimeVersionLine, ContentTypeLine]
  }

  /** Each line followed by its CRLF. */
  function Lines(ls: seq<Bytes>): Bytes {
    if ls == [] then [] else ls[0] + CRLF + Lines(ls[1..])
  }

  /** The message assembled in `sendGmail`. */
  function BuildMessage(from: Bytes, to: Bytes, subject: Bytes, body: Bytes): (msg: Bytes)
    ensures FromField + from + CRLF <= msg
    ensures |msg| >= |body| + 4 && msg[|msg| - |body| - 4..] == CRLF + body + CRLF
  {
    FromField + from + CRLF +
    ToField + to + CRLF +
    SubjectField + subject + CRLF +
    MimeVersionLine + CRLF +
    ContentTypeLine + CRLF +
    CRLF +
    body + CRLF
  }

  // A reader of the layout: header lines up to the first empty line, then
  // the body up to the final CRLF.

  ghost predicate CRLFAt(s: Bytes, i: int) {
    0 <= i && i + 1 < |s| && s[i] == '\r' && s[i + 1] == '\n'
  }

  /** Position of the first CRLF in `s` at or after `from`. */
  function FindCRLF(s: Bytes, from: nat): (r: Option<nat>)
    ensures r.Some? ==> from <= r.value && CRLFAt(s, r.value)
    ensures r.Some? ==> forall j :: from <= j < r.value ==> !CRLFAt(s, j)
    ensures r.None? ==> forall j :: from <= j < |s| ==> !CRLFAt(s, j)
    decreases |s| - from
  {
    if from + 1 >= |s| then None
    else if s[from] == '\r' && s[from + 1] == '\n' then Some(from)
    else FindCRLF(s, from + 1)
  }

  /** Splits off the CRLF-terminated header lines up to the empty line;
      returns them and what follows the empty line. */
  function ParseHeaders(s: Bytes): Option<(seq<Bytes>, Bytes)>
    decreases |s|
  {
    match FindCRLF(s, 0)
    case None => None
    case Some(i) =>
      if i == 0 then Some(([], s[2..]))
      else match ParseHeaders(s[i + 2..])
        case None => None
        case Some(p) => Some(([s[..i]] + p.0, p.1))
  }

  datatype ParsedMessage = ParsedMessage(headers: seq<Bytes>, body: Bytes)

  /** Reads a message back into its header lines and its body. */
  function ParseMessage(msg: Bytes): Option<ParsedMessage> {
    match ParseHeaders(msg)
    case None => None
    case Some(p) =>
      var rest := p.1;
      if |rest| >= 2 && rest[|rest| - 2..] == CRLF
      then Some(ParsedMessage(p.0, rest[..|rest| - 2]))
      else None
  }

  /** A line without a carriage return ends at the CRLF appended to it. */
  lemma FindCRLFAfterLine(line: Bytes, tail: Bytes)
    requires NoCR(line)
    ensures FindCRLF(line + CRLF + tail, 0) == Some(|line|)
  {
    var s := line + CRLF + tail;
    assert CRLFAt(s, |line|);
    forall j | 0 <= j < |line|
      ensures !CRLFAt(s, j)
    {
      assert s[j] == line[j];
    }
  }

  /** Non-empty header lines free of carriage returns are read back one by
      one, and the empty line ends the header block. */
  lemma {:induction false} ParseHeadersLines(ls: seq<Bytes>, rest: Bytes)
    requires forall k :: 0 <= k < |ls| ==> ls[k] != []
    requires forall k :: 0 <= k < |ls| ==> NoCR(ls[k])
    ensures ParseHeaders(Lines(ls) + CRLF + rest) == Some((ls, rest))
    decreases |ls|
  {
    var s := Lines(ls) + CRLF + rest;
    if ls == [] {
      assert s == [] + CRLF + rest;
      FindCRLFAfterLine([], rest);
      assert s[2..] == rest;
    } else {
      var tail := Lines(ls[1..]) + CRLF + rest;
      assert s == ls[0] + CRLF + tail;
      FindCRLFAfterLine(ls[0], tail);
      assert s[..|ls[0]|] == ls[0];
      assert s[|ls[0]| + 2..] == tail;
      ParseHeadersLines(ls[1..], rest);
      assert [ls[0]] + ls[1..] == ls;
    }
  }

  ghost predicate NoCR(s: Bytes) {
    forall j :: 0 <= j < |s| ==> s[j] != '\r'
  }

  lemma NoCRPrefixed(prefix: Bytes, s: Bytes)
    requires NoCR(prefix) && NoLineBreak(s)
    ensures NoCR(prefix + s)
  {
    forall j | 0 <= j < |prefix + s|
      ensures (prefix + s)[j] != '\r'
    {
      if j >= |prefix| {
        assert (prefix + s)[j] == s[j - |prefix|];
      } else {
        assert (prefix + s)[j] == prefix[j];
      }
    }
  }

  lemma {:induction false} LinesAppend(xs: seq<Bytes>, ys: seq<Bytes>)
    ensures Lines(xs + ys) == Lines(xs) + Lines(ys)
    decreases |xs|
  {
    if xs == [] {
      assert xs + ys == ys;
    } else {
      assert (xs + ys)[1..] == xs[1..] + ys;
      LinesAppend(xs[1..], ys);
    }
  }

  lemma LinesSingle(x: Bytes)
    ensures Lines([x]) == x + CRLF
  {
    var one: seq<Bytes> := [x];
    assert one[1..] == [];
  }

  /** Five CRLF-terminated lines. */
  lemma LinesFive(a: Bytes, b: Bytes, c: Bytes, d: Bytes, e: Bytes)
    ensures Lines([a, b, c, d, e]) == a + CRLF + b + CRLF + c + CRLF + d + CRLF + e + CRLF
  {
    LinesAppend([a], [b, c, d, e]);
    LinesAppend([b], [c, d, e]);
    LinesAppend([c], [d, e]);
    LinesAppend([d], [e]);
    LinesSingle(a);
    LinesSingle(b);
    LinesSingle(c);
    LinesSingle(d);
    LinesSingle(e);
    assert [a] + [b, c, d, e] == [a, b, c, d, e];
    assert [b] + [c, d, e] == [b, c, d, e];
    assert [c] + [d, e] == [c, d, e];
    assert [d] + [e] == [d, e];
  }

  /** The assembled message is the header lines, each CRLF-terminated, then
      the empty line, then the body and its CRLF. */
  lemma BuildMessageLayout(from: Bytes, to: Bytes, subject: Bytes, body: Bytes)
    ensures BuildMessage(from, to, subject, body)
         == Lines(HeaderLines(from, to, subject)) + CRLF + body + CRLF
  {
    var a, b, c := FromField + from, ToField + to, SubjectField + subject;
    var head := a + CRLF + b + CRLF + c + CRLF + MimeVersionLine + CRLF + ContentTypeLine + CRLF;
    assert HeaderLines(from, to, subject) == [a, b, c, MimeVersionLine, ContentTypeLine];
    LinesFive(a, b, c, MimeVersionLine, ContentTypeLine);
    var p1 := a + CRLF;
    assert p1 + ToField + to == p1 + b;
    var p2 := p1 + b + CRLF;
    assert p2 + SubjectField + subject == p2 + c;
  }

  /** Reading the assembled message gives back exactly the five header lines
      From, To, Subject, MIME-Version, Content-Type in that order, and the
      body, provided sender, recipient and subject hold no line break. */
  lemma ParseBuildMessage(from: Bytes, to: Bytes, subject: Bytes, body: Bytes)
    requires NoLineBreak(from) && NoLineBreak(to) && NoLineBreak(subject)
    ensures ParseMessage(BuildMessage(from, to, subject, body))
         == Some(ParsedMessage(HeaderLines(from, to, subject), body))
  {
    var hs := HeaderLines(from, to, subject);
    NoCRPrefixed(FromField, from);
    NoCRPrefixed(ToField, to);
    NoCRPrefixed(SubjectField, subject);
    assert forall k :: 0 <= k < |hs| ==> NoCR(hs[k]);
    var rest := body + CRLF;
    ParseHeadersLines(hs, rest);
    BuildMessageLayout(from, to, subject, body);
    assert Lines(hs) + CRLF + body + CRLF == Lines(hs) + CRLF + rest;
    assert rest[..|rest| - 2] == body;
  }

  lemma LinesSix(a: Bytes, b: Bytes, c: Bytes, d: Bytes, e: Bytes, f: Bytes)
    ensures Lines([a, b, c, d, e, f]) == a + CRLF + b + CRLF + c + CRLF + d + CRLF + e + CRLF + f + CRLF
  {
    LinesAppend([a, b, c, d, e], [f]);
    LinesFive(a, b, c, d, e);
    LinesSingle(f);
    assert [a, b, c, d, e] + [f] == [a, b, c, d, e, f];
  }

  /** A CRLF inside the subject reads as a line boundary. */
  lemma InjectedSubjectLines(from: Bytes, to: Bytes, s1: Bytes, s2: Bytes)
    ensures Lines(HeaderLines(from, to, s1 + CRLF + s2))
         == Lines([FromField + from, ToField + to, SubjectField + s1, s2, MimeVersionLine, ContentTypeLine])
  {
    LinesFive(FromField + from, ToField + to, SubjectField + (s1 + CRLF + s2), MimeVersionLine, ContentTypeLine);
    LinesSix(FromField + from, ToField + to, SubjectField + s1, s2, MimeVersionLine, ContentTypeLine);
  }

  /** The subject is not filtered: a subject carrying a CRLF followed by more
      text puts that text on a header line of its own, so the block then has
      six lines. */
  lemma SubjectLineBreakAddsHeader(from: Bytes, to: Bytes, s1: Bytes, s2: Bytes, body: Bytes)
    requires NoLineBreak(from) && NoLineBreak(to) && NoLineBreak(s1) && NoLineBreak(s2)
    requires s2 != []
    ensures ParseMessage(BuildMessage(from, to, s1 + CRLF + s2, body))
         == Some(ParsedMessage([FromField + from, ToField + to, SubjectField + s1, s2,
                                MimeVersionLine, ContentTypeLine], body))
  {
    var hs := [FromField + from, ToField + to, SubjectField + s1, s2, MimeVersionLine, ContentTypeLine];
    NoCRPrefixed(FromField, from);
    NoCRPrefixed(ToField, to);
    NoCRPrefixed(SubjectField, s1);
    NoCRPrefixed([], s2);
    assert [] + s2 == s2;
    assert forall k :: 0 <= k < |hs| ==> NoCR(hs[k]);
    var rest := body + CRLF;
    ParseHeadersLines(hs, rest);
    BuildMessageLayout(from, to, s1 + CRLF + s2, body);
    InjectedSubjectLines(from, to, s1, s2);
    assert BuildMessage(from, to, s1 + CRLF + s2, body) == Lines(hs) + CRLF + rest;
    assert rest[..|rest| - 2] == body;
  }

  lemma LinesThree(a: Bytes, b: Bytes, c: Bytes)
    ensures Lines([a, b, c]) == a + CRLF + b + CRLF + c + CRLF
  {
    LinesAppend([a], [b, c]);
    LinesAppend([b], [c]);
    LinesSingle(a);
    LinesSingle(b);
    LinesSingle(c);
    assert [a] + [b, c] == [a, b, c];
    assert [b] + [c] == [b, c];
  }

  /** With a subject ending in CRLF, the blank line after the third header
      line comes before MIME-Version and Content-Type. */
  lemma TrailingBreakLayout(from: Bytes, to: Bytes, s1: Bytes, body: Bytes)
    ensures BuildMessage(from, to, s1 + CRLF, body)
         == Lines([FromField + from, ToField + to, SubjectField + s1]) + CRLF
            + (MimeVersionLine + CRLF + ContentTypeLine + CRLF + CRLF + body + CRLF)
  {
    LinesThree(FromField + from, ToField + to, SubjectField + s1);
    BuildMessageLayout(from, to, s1 + CRLF, body);
    LinesFive(FromField + from, ToField + to, SubjectField + (s1 + CRLF), MimeVersionLine, ContentTypeLine);
  }

  /** A subject ending in CRLF ends the header block early: the blank line it
      leaves behind makes the MIME-Version and Content-Type lines part of
      the body. */
  lemma SubjectTrailingLineBreakEndsHeaders(from: Bytes, to: Bytes, s1: Bytes, body: Bytes)
    requires NoLineBreak(from) && NoLineBreak(to) && NoLineBreak(s1)
    ensures ParseMessage(BuildMessage(from, to, s1 + CRLF, body))
         == Some(ParsedMessage([FromField + from, ToField + to, SubjectField + s1],
                               MimeVersionLine + CRLF + ContentTypeLine + CRLF + CRLF + body))
  {
    var hs := [FromField + from, ToField + to, SubjectField + s1];
    NoCRPrefixed(FromField, from);
    NoCRPrefixed(ToField, to);
    NoCRPrefixed(SubjectField, s1);
    assert forall k :: 0 <= k < |hs| ==> NoCR(hs[k]);
    var moved := MimeVersionLine + CRLF + ContentTypeLine + CRLF + CRLF + body;
    var rest := moved + CRLF;
    ParseHeadersLines(hs, rest);
    TrailingBreakLayout(from, to, s1, body);
    assert rest[..|rest| - 2] == moved;
  }
}
