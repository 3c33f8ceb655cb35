/**
 * The delivery-status webhook: the SMS provider posts each change in a sent
 * message's status. The handler checks the three required fields and
 * acknowledges with the update it received.
 */
module StatusWebhook {
  import opened Wrappers

  /** The JSON body's fields; None is a field that is absent. `message`,
      `sender` and `custom_ref` are read but never used. */
  datatype StatusBody = StatusBody(to: Option<string>, message: Option<string>, sender: Option<string>,
                                   customRef: Option<string>, status: Option<string>,
                                   messageId: Option<string>, receivedAt: Option<string>)

  datatype StatusUpdate = StatusUpdate(to: string, status: string, messageId: string, timestamp: string)

  datatype StatusReply =
    | MethodNotAllowed          // 405
    | MissingFields             // 400 "Missing required fields"
    | Acknowledged(update: StatusUpdate)  // 200 "OK"
    | InternalError             // 500

  function HttpStatus(r: StatusReply): int {
    match r
    case MethodNotAllowed => 405
    case MissingFields => 400
    case Acknowledged(_) => 200
    case InternalError => 500
  }

  /** The handler, with the current time as `now` and None for a request without a body. */
  function HandleStatus(httpMethod: string, body: Option<StatusBody>, now: string): (r: StatusReply)
    ensures httpMethod != "POST" <==> r == MethodNotAllowed
    ensures r.Acknowledged? <==>
              httpMethod == "POST" && body.Some?
              && Truthy(body.value.to) && Truthy(body.value.status) && Truthy(body.value.messageId)
    ensures r.Acknowledged? ==>
              r.update.to == body.value.to.value && r.update.status == body.value.status.value
              && r.update.messageId == body.value.messageId.value
  {
    if httpMethod != "POST" then MethodNotAllowed
    else match body
      case None => InternalError
      case Some(b) =>
        if !Truthy(b.to) || !Truthy(b.status) || !Truthy(b.messageId) then MissingFields
        else Acknowledged(StatusUpdate(b.to.value, b.status.value, b.messageId.value,
                                       if Truthy(b.receivedAt) then b.receivedAt.value else now))
  }

  /** A POST missing any of `to`, `status` or `message_id` is refused with
      400; otherwise the update is echoed, status in its original case, with
      `received_at` or else the current time. */
  lemma StatusAck(body: StatusBody, now: string)
    ensures var r := HandleStatus("POST", Some(body), now);
            if Truthy(body.to) && Truthy(body.status) && Truthy(body.messageId) then
              HttpStatus(r) == 200
              && r.update == StatusUpdate(body.to.value, body.status.value, body.messageId.value,
                                          if Truthy(body.receivedAt) then body.receivedAt.value else now)
            else r == MissingFields && HttpStatus(r) == 400
  {
  }

  /** The fields the handler ignores do not change its reply. */
  lemma StatusIgnoresExtras(body: StatusBody, message: Option<string>, sender: Option<string>,
                            customRef: Option<string>, httpMethod: string, now: string)
    ensures HandleStatus(httpMethod, Some(body.(message := message, sender := sender, customRef := customRef)), now)
         == HandleStatus(httpMethod, Some(body), now)
  {
  }
}
