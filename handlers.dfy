/** The decision chains of the two HTTP endpoints, `/send`
    (`SendMessageHandler`) and `/receive` (`ReceiveMessage`), as functions
    from the request's outcome to the response. JSON decoding is represented
    by its outcome and the SMTP relay by a function that answers a delivery. */
module Handlers {
  import opened Text
  import opened Validation
  import opened MailFormat

  const StatusOK := 200
  const StatusBadRequest := 400
  const StatusMethodNotAllowed := 405
  const StatusBadGateway := 502

  const MethodPost: Bytes := "POST"

  const NotAllowedText: Bytes := "method not allowed"
  const InvalidJsonText: Bytes := "invalid JSON body"
  const SendFailedText: Bytes := "failed to send email"
  const Sent: Body := JsonMember("status", "sent")
  const Received: Body := JsonMember("status", "received")

  /** What a handler sees of a request: the HTTP method, and the decoded JSON body
      (None when decoding failed). Fields absent from the JSON decode as "". */
  datatype Request = Request(verb: Bytes, decoded: Option<Message>)

  /** A response body: nothing, or a JSON object with one string member. */
  datatype Body = NoBody | JsonMember(key: Bytes, value: Bytes)

  datatype Response = Response(status: int, body: Body)

  /** What `sendGmail` is asked to do: MAIL FROM, RCPT TO, and the DATA text. */
  datatype Delivery = Delivery(sender: Bytes, recipient: Bytes, data: Bytes)

  /** The relay's answer; the cause of a failure is only logged. */
  datatype RelayResult = Delivered | RelayFailed(cause: Bytes)

  /** The response, and the delivery handed to the relay (None: relay not called). */
  datatype SendOutcome = SendOutcome(response: Response, relayed: Option<Delivery>)

  function ErrorBody(text: Bytes): Body {
    JsonMember("error", text)
  }

  /** The delivery the service makes for a message, from the configured sender. */
  function DeliveryFor(from: Bytes, m: Message): (d: Delivery)
    ensures d.sender == from && d.recipient == m.email
    ensures d.data == BuildMessage(from, m.email, m.subject, m.body)
    ensures Validate(m) == None ==> NoLineBreak(d.recipient)
    ensures Validate(m) == None && NoLineBreak(from) && NoLineBreak(m.subject) ==>
              ParseMessage(d.data) == Some(ParsedMessage(HeaderLines(from, m.email, m.subject), m.body))
  {
    var d := Delivery(from, m.email, BuildMessage(from, m.email, m.subject, m.body));
    if Validate(m) == None && NoLineBreak(from) && NoLineBreak(m.subject) then
      ValidatedRecipientHasNoLineBreak(m);
      ParseBuildMessage(from, m.email, m.subject, m.body);
      d
    else if Validate(m) == None then
      ValidatedRecipientHasNoLineBreak(m);
      d
    else
      d
  }

  /** `SendMessageHandler`: method check, JSON decode, validation, relay. */
  function SendMessage(from: Bytes, req: Request, relay: Delivery -> RelayResult): (out: SendOutcome)
    ensures out.relayed.Some? <==>
              req.verb == MethodPost && req.decoded.Some? && Validate(req.decoded.value) == None
    ensures out.relayed.Some? ==> out.relayed.value == DeliveryFor(from, req.decoded.value)
    ensures out.response.status == StatusOK <==>
              out.relayed.Some? && relay(out.relayed.value) == Delivered
    ensures out.response.status == StatusBadGateway <==>
              out.relayed.Some? && relay(out.relayed.value).RelayFailed?
  {
    if req.verb != MethodPost then
      SendOutcome(Response(StatusMethodNotAllowed, ErrorBody(NotAllowedText)), None)
    else match req.decoded
      case None =>
        SendOutcome(Response(StatusBadRequest, ErrorBody(InvalidJsonText)), None)
      case Some(m) =>
        match Validate(m)
        case Some(e) =>
          SendOutcome(Response(StatusBadRequest, ErrorBody(ErrorText(e))), None)
        case None =>
          var d := DeliveryFor(from, m);
          match relay(d)
          case RelayFailed(_) =>
            SendOutcome(Response(StatusBadGateway, ErrorBody(SendFailedText)), Some(d))
          case Delivered =>
            SendOutcome(Response(StatusOK, Sent), Some(d))
  }

  /** The full response table of `/send`, with validation stated through the
      declarative pattern and the order of its checks. */
  lemma SendMessageResponses(from: Bytes, req: Request, relay: Delivery -> RelayResult)
    ensures var r := SendMessage(from, req, relay).response;
      && (req.verb != MethodPost ==>
            r == Response(StatusMethodNotAllowed, ErrorBody(NotAllowedText)))
      && (req.verb == MethodPost && req.decoded.None? ==>
            r == Response(StatusBadRequest, ErrorBody(InvalidJsonText)))
      && (req.verb == MethodPost && req.decoded.Some? && !Acceptable(req.decoded.value) ==>
            Validate(req.decoded.value).Some?
            && r == Response(StatusBadRequest, ErrorBody(ErrorText(Validate(req.decoded.value).value))))
      && (req.verb == MethodPost && req.decoded.Some? && Acceptable(req.decoded.value) ==>
            var d := DeliveryFor(from, req.decoded.value);
            r == if relay(d) == Delivered then Response(StatusOK, Sent)
                 else Response(StatusBadGateway, ErrorBody(SendFailedText)))
  {
    if req.verb == MethodPost && req.decoded.Some? {
      var m := req.decoded.value;
      if Acceptable(m) {
        assert Validate(m) == None;
      } else {
        assert Validate(m).Some?;
      }
    }
  }

  /** Any request with a missing field is answered 400 with the presence error,
      whatever else is wrong with it. */
  lemma SendMissingFieldIsBadRequest(from: Bytes, m: Message, relay: Delivery -> RelayResult)
    requires !Present(m)
    ensures SendMessage(from, Request(MethodPost, Some(m)), relay)
         == SendOutcome(Response(StatusBadRequest, ErrorBody(ErrorText(MissingField))), None)
  {
  }

  /** A recipient outside the pattern's language is answered 400 with the
      format error when all fields are present. */
  lemma SendBadEmailIsBadRequest(from: Bytes, m: Message, relay: Delivery -> RelayResult)
    requires Present(m) && !EmailPattern(m.email)
    ensures SendMessage(from, Request(MethodPost, Some(m)), relay)
         == SendOutcome(Response(StatusBadRequest, ErrorBody(ErrorText(BadEmailFormat))), None)
  {
    ValidateReportsFirstFailure(m);
    assert Validate(m) == Some(BadEmailFormat);
  }

  /** Whatever the relay does, an invalid request gets the same response:
      the relay is never consulted before validation has passed. */
  lemma SendInvalidIgnoresRelay(from: Bytes, req: Request,
                                relay1: Delivery -> RelayResult, relay2: Delivery -> RelayResult)
    requires !(req.verb == MethodPost && req.decoded.Some? && Acceptable(req.decoded.value))
    ensures SendMessage(from, req, relay1) == SendMessage(from, req, relay2)
    ensures SendMessage(from, req, relay1).relayed == None
  {
  }

  /** A relay failure is reported as the same generic 502 whatever its cause. */
  lemma SendRelayCauseNotLeaked(from: Bytes, req: Request,
                                relay1: Delivery -> RelayResult, relay2: Delivery -> RelayResult)
    requires SendMessage(from, req, relay1).relayed.Some?
    requires relay1(SendMessage(from, req, relay1).relayed.value).RelayFailed?
    requires relay2(SendMessage(from, req, relay1).relayed.value).RelayFailed?
    ensures SendMessage(from, req, relay1).response == SendMessage(from, req, relay2).response
         == Response(StatusBadGateway, ErrorBody(SendFailedText))
  {
  }

  /** A delivery handed to the relay names a recipient without line breaks,
      and when sender and subject hold none either, its text reads back as
      exactly the five header lines and the request's body. */
  lemma RelayedMessageWellFormed(from: Bytes, req: Request, relay: Delivery -> RelayResult)
    requires SendMessage(from, req, relay).relayed.Some?
    ensures NoLineBreak(SendMessage(from, req, relay).relayed.value.recipient)
    ensures var m := req.decoded.value;
            NoLineBreak(from) && NoLineBreak(m.subject) ==>
              ParseMessage(SendMessage(from, req, relay).relayed.value.data)
              == Some(ParsedMessage(HeaderLines(from, m.email, m.subject), m.body))
  {
    var m := req.decoded.value;
    ValidatedRecipientHasNoLineBreak(m);
    if NoLineBreak(from) && NoLineBreak(m.subject) {
      ParseBuildMessage(from, m.email, m.subject, m.body);
    }
  }

  /** The subject reaches the relay unfiltered: a validated POST whose
      subject is `s1 CRLF s2` is relayed with a text whose header block
      holds `s2` as a sixth line of its own. */
  lemma SendSubjectLineBreakAddsHeader(from: Bytes, m: Message, s1: Bytes, s2: Bytes,
                                       relay: Delivery -> RelayResult)
    requires Validate(m) == None && m.subject == s1 + CRLF + s2
    requires NoLineBreak(from) && NoLineBreak(s1) && NoLineBreak(s2) && s2 != []
    ensures var out := SendMessage(from, Request(MethodPost, Some(m)), relay);
      && out.relayed.Some?
      && ParseMessage(out.relayed.value.data)
         == Some(ParsedMessage([FromField + from, ToField + m.email, SubjectField + s1, s2,
                                MimeVersionLine, ContentTypeLine], m.body))
  {
    ValidatedRecipientHasNoLineBreak(m);
    SubjectLineBreakAddsHeader(from, m.email, s1, s2, m.body);
  }

  /** `ReceiveMessage`: method check and JSON decode only. */
  function ReceiveMessage(req: Request): (r: Response)
    ensures r.status == StatusMethodNotAllowed <==> req.verb != MethodPost
    ensures r.status == StatusBadRequest <==> req.verb == MethodPost && req.decoded.None?
    ensures r.status == StatusOK <==> req.verb == MethodPost && req.decoded.Some?
    ensures r.status == StatusOK ==> r.body == Received
    ensures r.status != StatusOK ==> r.body == NoBody
  {
    if req.verb != MethodPost then Response(StatusMethodNotAllowed, NoBody)
    else if req.decoded.None? then Response(StatusBadRequest, NoBody)
    else Response(StatusOK, Received)
  }

  /** `/receive` does not validate: its answer does not depend on the decoded
      message, so a message the validator rejects is still received. */
  lemma ReceiveIgnoresContent(verb: Bytes, m1: Message, m2: Message)
    ensures ReceiveMessage(Request(verb, Some(m1))) == ReceiveMessage(Request(verb, Some(m2)))
    ensures verb == MethodPost ==>
              ReceiveMessage(Request(verb, Some(m1))) == Response(StatusOK, Received)
  {
  }
}
