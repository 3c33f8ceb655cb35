/**
 * The inbound-message webhook: the SMS provider posts each reply a phone
 * sends. The handler checks the two required fields, recognises an opt-out
 * keyword, and acknowledges with what it received.
 */
module InboundWebhook {
  import opened Text
  import opened Wrappers

  /** The JSON body's fields; None is a field that is absent. */
  datatype InboundBody = InboundBody(from: Option<string>, message: Option<string>, timestamp: Option<string>)

  datatype InboundReply =
    | MethodNotAllowed                                     // 405
    | MissingFields                                        // 400 "Missing required fields"
    | Received(from: string, message: string, timestamp: string)  // 200 "OK"
    | InternalError                                        // 500, no body to read

  /** What one call does: its reply, and whether it logged an opt-out request. */
  datatype InboundOutcome = InboundOutcome(reply: InboundReply, optOutLogged: bool)

  function HttpStatus(r: InboundReply): int {
    match r
    case MethodNotAllowed => 405
    case MissingFields => 400
    case Received(_, _, _) => 200
    case InternalError => 500
  }

  const OptOutKeywords: seq<string> := ["STOP", "UNSUBSCRIBE", "QUIT", "CANCEL"]

  /** `optOutKeywords.includes(message.toUpperCase().trim())`. */
  predicate IsOptOut(message: string) {
    Trim(ToUpper(message)) in OptOutKeywords
  }

  /** The handler, with the current time as `now` and None for a request without a body. */
  function HandleInbound(httpMethod: string, body: Option<InboundBody>, now: string): (r: InboundOutcome)
    ensures httpMethod != "POST" <==> r.reply == MethodNotAllowed
    ensures r.optOutLogged ==> r.reply.Received? && IsOptOut(r.reply.message)
    ensures r.reply.Received? ==>
              httpMethod == "POST" && body.Some? && Truthy(body.value.from) && Truthy(body.value.message)
              && r.reply.from == body.value.from.value && r.reply.message == body.value.message.value
              && r.optOutLogged == IsOptOut(r.reply.message)
  {
    if httpMethod != "POST" then InboundOutcome(MethodNotAllowed, false)
    else match body
      case None => InboundOutcome(InternalError, false)
      case Some(b) =>
        if !Truthy(b.from) || !Truthy(b.message) then InboundOutcome(MissingFields, false)
        else
          var ts := if Truthy(b.timestamp) then b.timestamp.value else now;
          InboundOutcome(Received(b.from.value, b.message.value, ts), IsOptOut(b.message.value))
  }

  /** A POST whose body has a `from` and a `message` is acknowledged with both
      verbatim, and with the supplied timestamp or else the current time;
      without either field it is refused with 400. */
  lemma InboundAck(body: InboundBody, now: string)
    ensures var r := HandleInbound("POST", Some(body), now).reply;
            if Truthy(body.from) && Truthy(body.message) then
              r == Received(body.from.value, body.message.value,
                            if Truthy(body.timestamp) then body.timestamp.value else now)
              && HttpStatus(r) == 200
            else r == MissingFields && HttpStatus(r) == 400
  {
  }

  /** Whitespace around a reply does not change whether it opts out. */
  lemma OptOutPadded(w1: string, m: string, w2: string)
    requires AllWhitespace(w1) && AllWhitespace(w2)
    ensures IsOptOut(w1 + m + w2) == IsOptOut(m)
  {
    ToUpperAppend(w1 + m, w2);
    ToUpperAppend(w1, m);
    ToUpperWhitespace(w1);
    ToUpperWhitespace(w2);
    TrimPadded(w1, ToUpper(m), w2);
  }

  /** Case does not matter: a reply opts out exactly when its upper case does. */
  lemma OptOutCaseInsensitive(m: string)
    ensures IsOptOut(ToUpper(m)) == IsOptOut(m)
  {
    ToUpperIdempotent(m);
  }

  predicate Capitals(s: string) {
    forall k :: 0 <= k < |s| ==> 'A' <= s[k] <= 'Z'
  }

  lemma {:induction false} ToUpperOfCapitals(s: string)
    requires Capitals(s)
    ensures ToUpper(s) == s
    decreases |s|
  {
    if s != [] {
      ToUpperOfCapitals(s[1..]);
      assert s == [s[0]] + s[1..];
    }
  }

  /** A word of capitals normalises to itself. */
  lemma CapitalWord(w: string)
    requires Capitals(w)
    ensures Trim(ToUpper(w)) == w
  {
    ToUpperOfCapitals(w);
    CapitalsTrimmed(w);
  }

  lemma KeywordsAreCapitals()
    ensures forall w :: w in OptOutKeywords ==> Capitals(w) && ' ' !in w
  {
  }

  /** Each of the four keywords, as written, opts out. */
  lemma KeywordsOptOut()
    ensures forall w :: w in OptOutKeywords ==> IsOptOut(w)
  {
    KeywordsAreCapitals();
    forall w | w in OptOutKeywords ensures IsOptOut(w) {
      CapitalWord(w);
    }
  }

  /** Any casing of a keyword, with any whitespace around it, opts out. */
  lemma PaddedKeywordOptsOut(w1: string, word: string, w2: string)
    requires AllWhitespace(w1) && AllWhitespace(w2) && ToUpper(word) in OptOutKeywords
    ensures IsOptOut(w1 + word + w2)
  {
    OptOutPadded(w1, word, w2);
    KeywordsAreCapitals();
    CapitalsTrimmed(ToUpper(word));
  }

  lemma CapitalsTrimmed(u: string)
    requires Capitals(u)
    ensures Trim(u) == u
  {
    if u != [] {
      assert !IsWhitespace(u[0]) && !IsWhitespace(u[|u| - 1]);
    }
    TrimTrimmed(u);
  }

  lemma StopCapitals()
    ensures ToUpper("stop") == "STOP"
  {
    assert UpperChar('p') == "P";
    assert ToUpper("p") == "P";
    assert UpperChar('o') == "O";
    assert ToUpper("op") == "OP";
    assert UpperChar('t') == "T";
    assert ToUpper("top") == "TOP";
    assert UpperChar('s') == "S";
  }

  /** `stop` in lower case, with any whitespace around it, opts out. */
  lemma PaddedStopOptsOut(w1: string, w2: string)
    requires AllWhitespace(w1) && AllWhitespace(w2)
    ensures IsOptOut(w1 + "stop" + w2)
  {
    StopCapitals();
    PaddedKeywordOptsOut(w1, "stop", w2);
  }

  lemma {:induction false} SentenceUpper(a: string, b: string)
    requires Capitals(a) && Capitals(b)
    ensures ToUpper(a + " " + b) == a + " " + b
  {
    ToUpperAppend(a + " ", b);
    ToUpperAppend(a, " ");
    ToUpperOfCapitals(a);
    ToUpperOfCapitals(b);
    ToUpperWhitespace(" ");
  }

  /** Two words are never an opt-out, even when one is a keyword: the match
      is exact, not a search. */
  lemma SentenceNeverOptsOut(a: string, b: string)
    requires Capitals(a) && Capitals(b) && a != [] && b != []
    ensures !IsOptOut(a + " " + b)
  {
    SentenceUpper(a, b);
    var s := a + " " + b;
    assert s[0] == a[0] && s[|s| - 1] == b[|b| - 1] && s[|a|] == ' ';
    TrimTrimmed(s);
    KeywordsAreCapitals();
  }
}
