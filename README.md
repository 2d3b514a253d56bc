# Email_sender relay: a Dafny model of its decisions

The relay accepts a JSON payload `{email, subject, body}` on `POST /send`,
validates it, and forwards it as a plain-text mail through an SMTP relay. A
second endpoint, `POST /receive`, acknowledges a decoded payload without
validating it. This project models the three pure decisions inside
`main.go` and proves their properties:

- `validation.dfy` (module `Validation`): `validateMessage`. It checks
  presence first, then the recipient pattern
  `^[a-zA-Z0-9._%+-]+@[a-zA-Z0-9.-]+\.[a-zA-Z]{2,}$`, then the 25-byte
  subject cap, then the 1000-byte body cap. The pattern appears twice. It is
  stated as a language, `EmailPattern`: some split L "@" D "." T fits the
  character classes. It is also written as a matcher, `EmailMatches`, which
  splits at the first '@' and at the last '.' of the domain part. A lemma
  proves the two agree, so the matcher's contract and the validator's are
  stated through the language.
- `mail_format.dfy` (module `MailFormat`): the message text that `sendGmail`
  assembles. It has the header/body layout of section 2.1 of RFC 5322: five
  CRLF-terminated header lines (From, To, Subject, MIME-Version as in section 4 of RFC 2045,
  Content-Type), an empty line, the body and a final CRLF. A small reader
  (`ParseMessage`) splits such a text back into header lines and body. It
  is used to prove the layout and to expose that a CRLF inside the subject
  produces an extra header line, or ends the header block early.
- `handlers.dfy` (module `Handlers`): the early-return chains of
  `SendMessageHandler` and `ReceiveMessage`. Each is a function from the
  request's outcome (HTTP method, decoded message or decode failure) to the
  status and JSON body. For `/send`, the SMTP relay is a function parameter
  that answers a `Delivery`, and the result records the delivery handed to
  the relay, or None when the relay was not called.
- `text.dfy` (module `Text`): byte strings. A Go `string` is a sequence of
  bytes and `len` counts bytes, so every text is a `seq<Byte>`, with one
  element per byte (a `char` below 256). The pattern's classes are all
  ASCII. A multi-byte UTF-8 character therefore fails the pattern in Go, and
  its bytes fail it here too.

Two behaviours of the code are easy to misread:
- The length caps count bytes, not characters.
- `/receive` does not echo the decoded input. It answers
  `200 {"status":"received"}`, and it answers 405 and 400 with no body.

## Model

| member | source | states |
|---|---|---|
| Validation.SplitMatchesPattern | main.go:90-96 | splitting at the first '@' and the last '.' after it accepts exactly the strings of the anchored pattern (both directions) |
| Validation.EmailMatches | main.go:90-96 | the hand-written matcher is true iff the recipient is in the anchored pattern's language |
| Validation.ShortestTopLevelDomain | main.go:91 | `a@b.co` matches; `a@b.c` does not, because the top-level domain needs at least two letters |
| Validation.RejectedExamples | main.go:91 | a trailing newline, an inner space or a second '@' makes the pattern fail; `$` matches only at the end of the text |
| Validation.PatternEmailOneAt | main.go:90-96 | an accepted recipient holds exactly one '@' |
| Validation.PatternEmailNoBreaks | main.go:90-96 | an accepted recipient holds no CR, LF or space |
| Validation.Validate | main.go:85-107 | `validateMessage` returns no error iff all fields are non-empty, the recipient is in the pattern's language, the subject is at most 25 bytes and the body at most 1000 bytes |
| Validation.SubjectLineBreakPassesValidation | main.go:85-106 | the subject is checked only for presence and length, so `"hi" CRLF "Bcc: x@y.zz"` with recipient `a@b.co` and body `b` passes validation |
| Validation.ValidateReportsFirstFailure | main.go:85-106 | each error is returned exactly when its check is the first to fail, in the order presence, format, subject, body; a missing field wins over every other fault |
| Validation.SubjectCapBoundary | main.go:98-100 | a 25-byte subject passes and a 26-byte subject is rejected as too long |
| Validation.BodyCapBoundary | main.go:102-104 | a 1000-byte body passes and a 1001-byte body is rejected as too long |
| Validation.ValidatedRecipientHasNoLineBreak | main.go:85-96 | a recipient that passed validation contains no CR or LF |
| Validation.ErrorText | main.go:85-104 | the four error messages as written at lines 87, 95, 99 and 103: each starts with "invalid ", and all but the format error start with "invalid message: " |
| Validation.ErrorTextDistinct | main.go:85-104 | the four error messages are pairwise distinct, so the text in a 400 response identifies the failed check |
| MailFormat.BuildMessage | main.go:63-71 | the message starts with the From line and ends with the empty line, the body and a CRLF |
| MailFormat.BuildMessageLayout | main.go:63-71 | the message is the five header lines, each followed by CRLF, then CRLF, the body and CRLF |
| MailFormat.ParseBuildMessage | main.go:63-71 | with sender, recipient and subject free of CR and LF, reading the message back gives exactly the five headers From, To, Subject, MIME-Version, Content-Type in order, and the body |
| MailFormat.SubjectLineBreakAddsHeader | main.go:66 | the subject is not filtered: a subject `s1 CRLF s2` makes `s2` a sixth header line of its own |
| MailFormat.SubjectTrailingLineBreakEndsHeaders | main.go:66 | a subject `s1 CRLF` ends the header block after the Subject line, so the MIME-Version and Content-Type lines are read as the start of the body |
| Handlers.DeliveryFor | main.go:129-135 | the service relays from its configured sender to the message's recipient, and the DATA text is exactly `BuildMessage` of sender, recipient, subject and body (lines 63-71); for a validated message the recipient has no line break, and with a clean sender and subject the text reads back as the five header lines and the body |
| Handlers.SendMessage | main.go:143-171 | the relay is called iff the method is POST, decoding succeeded and validation passed, and it is called with the configured sender, the recipient and the assembled message; the status is 200 iff the relay delivered and 502 iff the relay failed |
| Handlers.SendMessageResponses | main.go:143-171 | the full response table: 405 for a non-POST method, 400 "invalid JSON body" on a decode failure, 400 with the validator's message for an unacceptable message, and 200 `{"status":"sent"}` or 502 "failed to send email" by the relay's answer |
| Handlers.SendMissingFieldIsBadRequest | main.go:158-161 | a POST whose message lacks a field gets 400 with the presence error and no relay call |
| Handlers.SendBadEmailIsBadRequest | main.go:158-161 | a POST with all fields present and a recipient outside the pattern gets 400 "invalid email format" and no relay call |
| Handlers.SendInvalidIgnoresRelay | main.go:145-163 | for a request that fails the method, decode or validation check, the outcome is the same for every relay and no delivery is made |
| Handlers.SendRelayCauseNotLeaked | main.go:163-166 | any two failure causes from the relay produce the same generic 502 response |
| Handlers.RelayedMessageWellFormed | main.go:158-169 | a delivery handed to the relay has a recipient without line breaks; with a clean sender and subject, its text reads back as exactly the five header lines and the request's body |
| Handlers.SendSubjectLineBreakAddsHeader | main.go:158-169 | the subject reaches the relay unfiltered: a POST that passes validation with subject `s1 CRLF s2` is relayed, and its text reads back with `s2` as a sixth header line |
| Handlers.ReceiveMessage | main.go:173-190 | 405 with no body iff the method is not POST, 400 with no body iff decoding failed, otherwise 200 `{"status":"received"}` |
| Handlers.ReceiveIgnoresContent | main.go:181-189 | `/receive` does not validate: its answer to a decoded POST is the same for every message |

## Left out

- The SMTP transaction in `sendGmail` (dial, STARTTLS, AUTH PLAIN, MAIL, RCPT, DATA, QUIT, main.go:27-61 and 73-82) is network I/O. It is a function parameter from `Delivery` to delivered-or-failed.
- The DATA writer returned at main.go:58 and written at main.go:73 is a dot-writer from Go's text-protocol library. It doubles leading dots, turns each bare LF into CRLF, and appends the final `.` line. None of this is modelled, so the model's message text is the text before that translation. Because a bare LF also becomes a line break on the wire, `ParseBuildMessage` requires sender, recipient and subject free of both CR and LF, not only of CR. For the same reason, a bare LF in the subject splits the Subject line on the wire just as CRLF does in `SubjectLineBreakAddsHeader`.
- The 10-second deadline and the `MessageService` wiring (main.go:109-135) are timeout plumbing. The deadline context reaches only the dial (main.go:29), because the SMTP client takes no context, so it bounds the connection attempt and not the STARTTLS-to-QUIT exchange. A dial timeout is one way the relay fails. The service's sender address is the `from` parameter.
- Line length: section 2.1.1 of RFC 5322 limits each line to 998 characters. The source does not enforce this: a 1000-byte body without a line break passes validation and is written as one line, the recipient has no length cap, and the DATA writer folds no lines. The model does not state or check the limit either.
- JSON decoding and encoding are a foreign library. A request carries only the decode outcome: a `Message`, or None. Absent JSON fields decode as empty strings, so they reach the presence check. A response body is a single JSON member (key, value), not its encoded text, and the `Content-Type: application/json` header that `writeJSON` sets is not modelled.
- Logging of the relay error and of the received message (main.go:164, 187) is a side effect with nothing to verify.
- `main` (environment variables, CORS options, routing, `ListenAndServe`, main.go:192-217) is configuration and server I/O.
- General regular-expression semantics are not modelled; only the one fixed pattern is, as a predicate.
