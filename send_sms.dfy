/**
 * The relay that forwards outgoing SMS to the provider: it validates the
 * request, rewrites Australian numbers from international to national form,
 * builds the provider payload, and maps the provider's answer to its own
 * reply. The provider call is an input: the HTTP status and JSON body it
 * answered with, or that it could not be reached.
 */
module SendSms {
  import opened Text
  import opened Wrappers

  /** One entry of the request's `messages` array; None is an absent field. */
  datatype OutgoingMessage = OutgoingMessage(to: Option<string>, message: Option<string>,
                                             sender: Option<string>, customRef: Option<string>)

  datatype ApiConfig = ApiConfig(key: Option<string>, secret: Option<string>, endpoint: Option<string>)

  /** The request body. `messages` is None when absent or not an array. */
  datatype SendBody = SendBody(messages: Option<seq<OutgoingMessage>>, apiConfig: Option<ApiConfig>)

  /** One entry of the payload sent to the provider. */
  datatype PayloadMessage = PayloadMessage(to: string, message: Option<string>, sender: string, customRef: string)

  /** What is posted to the provider: where, the `key:secret` pair the Basic
      authorisation header encodes, and the messages. */
  datatype ProviderRequest = ProviderRequest(endpoint: string, credentials: string, messages: seq<PayloadMessage>)

  /** One entry of the provider's `results`. */
  datatype MessageResult = MessageResult(status: Option<string>, customRef: Option<string>)

  datatype ProviderBody = ProviderBody(error: Option<string>, status: Option<string>,
                                       results: Option<seq<MessageResult>>)

  /** The provider's answer: none at all, or an HTTP status and a body that
      is None when it is not JSON. */
  datatype ProviderOutcome = Unreachable | Answered(httpStatus: int, body: Option<ProviderBody>)

  datatype SendReply =
    | MethodNotAllowed                                             // 405
    | BadRequest(error: string)                                    // 400
    | ProviderFailed(httpStatus: int, error: string, details: ProviderBody)  // the provider's status
    | SomeFailed(error: string, details: ProviderBody, failedMessages: seq<MessageResult>)  // 400
    | AllSent(details: ProviderBody)                               // 200 "Messages sent successfully"
    | Accepted(details: ProviderBody)                              // 200
    | InternalError                                                // 500

  function HttpStatus(r: SendReply): int {
    match r
    case MethodNotAllowed => 405
    case BadRequest(_) => 400
    case ProviderFailed(s, _, _) => s
    case SomeFailed(_, _, _) => 400
    case AllSent(_) => 200
    case Accepted(_) => 200
    case InternalError => 500
  }

  const MessagesRequired := "Messages array is required"
  const ConfigRequired := "API configuration is required"
  const SomeFailedText := "Some messages failed to send"
  const DefaultSender := "SMSProspector"

  // ---------------------------------------------------------------------------
  // Request side

  /** `+61…` and `61…` become `0…`; anything else is kept. */
  function NormalisePhone(p: string): (r: string)
    ensures !StartsWith(r, "+61") && !StartsWith(r, "61")
    ensures StartsWith(p, "+61") ==> r == "0" + p[3..]
    ensures !StartsWith(p, "+61") && StartsWith(p, "61") ==> r == "0" + p[2..]
    ensures !StartsWith(p, "+61") && !StartsWith(p, "61") ==> r == p
  {
    if StartsWith(p, "+61") || StartsWith(p, "61") then
      var r := "0" + (if StartsWith(p, "+61") then p[3..] else p[2..]);
      assert r[0] != "+61"[0] && r[0] != "61"[0];
      r
    else p
  }

  /** Rewriting a rewritten number changes nothing. */
  lemma NormalisePhoneIdempotent(p: string)
    ensures NormalisePhone(NormalisePhone(p)) == NormalisePhone(p)
  {
  }

  /** The payload entry for one message; `clockRef` is the `msg_<milliseconds>`
      reference used when the message carries none. */
  function PayloadEntry(m: OutgoingMessage, clockRef: string): PayloadMessage
    requires m.to.Some?
  {
    PayloadMessage(NormalisePhone(m.to.value), m.message,
                   if Truthy(m.sender) then m.sender.value else DefaultSender,
                   if Truthy(m.customRef) then m.customRef.value else clockRef)
  }

  /** `messages.map(...)`; None when some message has no `to`, where the
      rewrite would call a method on `undefined`. */
  function BuildPayload(ms: seq<OutgoingMessage>, clockRef: string): (r: Option<seq<PayloadMessage>>)
    ensures r.Some? <==> forall k :: 0 <= k < |ms| ==> ms[k].to.Some?
    ensures r.Some? ==> |r.value| == |ms| && forall k :: 0 <= k < |ms| ==> r.value[k] == PayloadEntry(ms[k], clockRef)
    decreases |ms|
  {
    if ms == [] then Some([])
    else if ms[0].to.None? then None
    else
      match BuildPayload(ms[1..], clockRef)
      case None =>
        assert exists k :: 1 <= k < |ms| && ms[k].to.None? by {
          var j :| 0 <= j < |ms[1..]| && ms[1..][j].to.None?;
          assert ms[j + 1] == ms[1..][j];
        }
        None
      case Some(rest) => Some([PayloadEntry(ms[0], clockRef)] + rest)
  }

  /** The request checks in order, then the call the relay makes. */
  datatype Prepared = Reject(reply: SendReply) | Forward(request: ProviderRequest)

  function Prepare(httpMethod: string, body: Option<SendBody>, clockRef: string): (r: Prepared)
    ensures httpMethod != "POST" <==> r == Reject(MethodNotAllowed)
  {
    if httpMethod != "POST" then Reject(MethodNotAllowed)
    else match body
      case None => Reject(InternalError)
      case Some(b) =>
        if b.messages.None? || |b.messages.value| == 0 then Reject(BadRequest(MessagesRequired))
        else match b.apiConfig
          case None => Reject(BadRequest(ConfigRequired))
          case Some(c) =>
            if !Truthy(c.key) || !Truthy(c.secret) || !Truthy(c.endpoint) then Reject(BadRequest(ConfigRequired))
            else match BuildPayload(b.messages.value, clockRef)
              case None => Reject(InternalError)
              case Some(payload) =>
                Forward(ProviderRequest(c.endpoint.value, c.key.value + ":" + c.secret.value, payload))
  }

  // ---------------------------------------------------------------------------
  // Response side

  /** The error text for a provider answer outside 200-299. */
  function ErrorText(httpStatus: int, body: ProviderBody): (r: string)
    ensures r != ""
  {
    if httpStatus == 401 then "Invalid API credentials"
    else if httpStatus == 403 then "Insufficient credits or unauthorized sender ID"
    else if httpStatus == 429 then "Rate limit exceeded"
    else if Truthy(body.error) then body.error.value
    else "Failed to send message"
  }

  /** `results.filter(result => result.status !== 'success')`. */
  function FailedResults(rs: seq<MessageResult>): (r: seq<MessageResult>)
    ensures |r| <= |rs|
    ensures forall x :: x in r <==> x in rs && x.status != Some("success")
    decreases |rs|
  {
    if rs == [] then []
    else (if rs[0].status != Some("success") then [rs[0]] else []) + FailedResults(rs[1..])
  }

  /** The reply built from the provider's answer; it is never one of the
      replies the request's own validation gives. */
  function ProviderReply(answer: ProviderOutcome): (r: SendReply)
    ensures !r.MethodNotAllowed? && !r.BadRequest?
  {
    match answer
    case Unreachable => InternalError
    case Answered(st, None) => InternalError
    case Answered(st, Some(b)) =>
      if !(200 <= st <= 299) then ProviderFailed(st, ErrorText(st, b), b)
      else if b.status == Some("complete") && b.results.Some? then
        var failed := FailedResults(b.results.value);
        if |failed| > 0 then SomeFailed(SomeFailedText, b, failed) else AllSent(b)
      else Accepted(b)
  }

  /** The whole handler. */
  function HandleSend(httpMethod: string, body: Option<SendBody>, clockRef: string, answer: ProviderOutcome): (r: SendReply)
    ensures r.MethodNotAllowed? <==> httpMethod != "POST"
  {
    match Prepare(httpMethod, body, clockRef)
    case Reject(r) => r
    case Forward(_) => ProviderReply(answer)
  }

  // ---------------------------------------------------------------------------
  // Properties

  /** A POST without messages is refused for that reason whatever its
      configuration; with messages but an incomplete configuration it is
      refused for the configuration. */
  lemma ValidationOrder(body: SendBody, clockRef: string, answer: ProviderOutcome)
    ensures body.messages.None? || body.messages == Some([]) ==>
              HandleSend("POST", Some(body), clockRef, answer) == BadRequest(MessagesRequired)
    ensures body.messages.Some? && body.messages.value != []
            && (body.apiConfig.None? || !Truthy(body.apiConfig.value.key)
                || !Truthy(body.apiConfig.value.secret) || !Truthy(body.apiConfig.value.endpoint)) ==>
              HandleSend("POST", Some(body), clockRef, answer) == BadRequest(ConfigRequired)
  {
  }

  /** A request that passes the checks is forwarded with one payload entry per
      message, in order: the number rewritten, the text as given, the sender
      defaulted to SMSProspector. */
  lemma ForwardedPayload(body: SendBody, clockRef: string)
    requires Prepare("POST", Some(body), clockRef).Forward?
    ensures var req := Prepare("POST", Some(body), clockRef).request;
            var ms := body.messages.value;
            |req.messages| == |ms| > 0
            && req.endpoint == body.apiConfig.value.endpoint.value
            && forall k :: 0 <= k < |ms| ==>
                 req.messages[k].to == NormalisePhone(ms[k].to.value)
                 && req.messages[k].message == ms[k].message
                 && req.messages[k].sender == (if Truthy(ms[k].sender) then ms[k].sender.value else DefaultSender)
  {
  }

  /** A provider answer outside 200-299 is passed on with its own status and
      the fixed texts for 401, 403 and 429, else the provider's own error,
      else a generic one. */
  lemma ProviderErrorMapping(st: int, b: ProviderBody)
    requires !(200 <= st <= 299)
    ensures var r := ProviderReply(Answered(st, Some(b)));
            r.ProviderFailed? && HttpStatus(r) == st
            && (st == 401 ==> r.error == "Invalid API credentials")
            && (st == 403 ==> r.error == "Insufficient credits or unauthorized sender ID")
            && (st == 429 ==> r.error == "Rate limit exceeded")
            && (st != 401 && st != 403 && st != 429 ==>
                  r.error == if Truthy(b.error) then b.error.value else "Failed to send message")
  {
  }

  /** A completed batch is reported as a failure exactly when some result is
      not a success, with the fixed error text and exactly those results in
      order; otherwise as sent. */
  lemma CompletedBatch(st: int, b: ProviderBody)
    requires 200 <= st <= 299 && b.status == Some("complete") && b.results.Some?
    ensures var r := ProviderReply(Answered(st, Some(b)));
            (HttpStatus(r) == 400 <==> exists k :: 0 <= k < |b.results.value| && b.results.value[k].status != Some("success"))
            && (r.SomeFailed? ==> r.error == SomeFailedText && r.failedMessages == FailedResults(b.results.value))
            && (HttpStatus(r) != 400 ==> r == AllSent(b))
  {
    NoFailures(b.results.value);
  }

  /** Nothing is listed as failed exactly when every result is a success. */
  lemma {:induction false} NoFailures(rs: seq<MessageResult>)
    ensures FailedResults(rs) == [] <==> forall k :: 0 <= k < |rs| ==> rs[k].status == Some("success")
    decreases |rs|
  {
    if rs != [] {
      NoFailures(rs[1..]);
      assert forall k :: 1 <= k < |rs| ==> rs[k] == rs[1..][k - 1];
    }
  }

  /** Failures are listed in the provider's order: the selection distributes
      over concatenation. */
  lemma {:induction false} FailedResultsAppend(a: seq<MessageResult>, b: seq<MessageResult>)
    ensures FailedResults(a + b) == FailedResults(a) + FailedResults(b)
    decreases |a|
  {
    if a == [] {
      assert a + b == b;
    } else {
      assert (a + b)[0] == a[0];
      assert (a + b)[1..] == a[1..] + b;
      FailedResultsAppend(a[1..], b);
    }
  }

  /** Any other successful answer is a 200. */
  lemma OtherSuccess(st: int, b: ProviderBody)
    requires 200 <= st <= 299 && !(b.status == Some("complete") && b.results.Some?)
    ensures ProviderReply(Answered(st, Some(b))) == Accepted(b)
  {
  }
}
