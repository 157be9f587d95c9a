/** DualLogSink: a Logbook sink that logs every exchange twice. The formatted request or
    response goes to BASIC_LOGGER, and its body, when it is non-empty JSON, goes on its own to
    BODY_LOGGER. */
module DualLogSink {
  import opened Java

  /** The two slf4j loggers the sink writes to. */
  datatype LoggerName = BasicLogger | BodyLogger

  /** One logging call: an info line with its template and argument, or an error with its
      message and cause. */
  datatype Event =
    | Info(logger: LoggerName, template: string, arg: string)
    | Error(logger: LoggerName, message: string, cause: Exc)

  /** Which of the two write overloads runs: the one for a request (from a precorrelation) or
      the one for a response (from a correlation). */
  datatype Side = RequestSide | ResponseSide

  function FormattedTemplate(side: Side): string
  {
    match side
    case RequestSide => "Formatted Request:\n{}"
    case ResponseSide => "Formatted Response:\n{}"
  }

  function BodyTemplate(side: Side): string
  {
    match side
    case RequestSide => "Request Body: {}"
    case ResponseSide => "Response Body: {}"
  }

  function FailureMessage(side: Side): string
  {
    match side
    case RequestSide => "Failed to read request body"
    case ResponseSide => "Failed to read response body"
  }

  const JsonMediaType := "application/json"

  /** isJsonContent: a content type is present and contains "application/json", case-sensitively
      and anywhere in it. */
  function IsJsonContent(contentType: Option<string>): (r: bool)
    ensures r <==> contentType.Some? && exists i :: OccursAt(contentType.value, JsonMediaType, i)
  {
    contentType.Some? && Contains(contentType.value, JsonMediaType)
  }

  /** How a write completed, and what it logged, in order. */
  datatype Written = Written(outcome: Outcome<()>, events: seq<Event>)

  /** write, either overload. `formatted` is how formatter.format completed and `body` how
      getBodyAsString completed; `contentType` is the message's content type. An exception from
      the formatter leaves at once; of the body's exceptions only an IOException (an UnsupportedEncodingException among them) is caught, and it
      is logged as an error on BASIC_LOGGER. */
  function Write(side: Side, formatted: Outcome<string>, body: Outcome<string>, contentType: Option<string>): (w: Written)
    ensures formatted.Threw? ==> w.outcome == Threw(formatted.exc) && w.events == []
    ensures formatted.Returned? ==>
              && 1 <= |w.events| <= 2
              && w.events[0] == Info(BasicLogger, FormattedTemplate(side), formatted.value)
    ensures w.outcome.Threw? <==> formatted.Threw? || (body.Threw? && !IsIOException(body.exc))
    ensures w.outcome.Threw? ==> w.outcome.exc == if formatted.Threw? then formatted.exc else body.exc
    ensures (|w.events| == 2 && w.events[1].logger == BodyLogger) <==>
              formatted.Returned? && body.Returned? && body.value != [] && IsJsonContent(contentType)
    ensures (|w.events| == 2 && w.events[1].Error?) <==>
              formatted.Returned? && body.Threw? && IsIOException(body.exc)
    ensures |w.events| == 2 ==>
              w.events[1] == if body.Returned? then Info(BodyLogger, BodyTemplate(side), body.value)
                             else Error(BasicLogger, FailureMessage(side), body.exc)
  {
    match formatted
    case Threw(e) => Written(Threw(e), [])
    case Returned(text) =>
      var first := Info(BasicLogger, FormattedTemplate(side), text);
      match body
      case Threw(e) =>
        if IsIOException(e) then Written(Returned(()), [first, Error(BasicLogger, FailureMessage(side), e)])
        else Written(Threw(e), [first])
      case Returned(b) =>
        if b != [] && IsJsonContent(contentType) then
          Written(Returned(()), [first, Info(BodyLogger, BodyTemplate(side), b)])
        else Written(Returned(()), [first])
  }

  /** Everything BODY_LOGGER received during one write. */
  function BodyEvents(events: seq<Event>): (r: seq<Event>)
    ensures |r| <= |events|
    ensures forall k :: 0 <= k < |r| ==> r[k] in events && r[k].logger == BodyLogger
  {
    if events == [] then []
    else (if events[0].logger == BodyLogger then [events[0]] else []) + BodyEvents(events[1..])
  }

  /** BODY_LOGGER receives at most one line per write, and only the exact body of a message
      whose content type mentions JSON; whatever BASIC_LOGGER's formatter does with the body, it
      never reaches BODY_LOGGER unless it is JSON. */
  lemma BodyLoggerOnlyJson(side: Side, formatted: Outcome<string>, body: Outcome<string>, contentType: Option<string>)
    ensures var b := BodyEvents(Write(side, formatted, body, contentType).events);
      && |b| <= 1
      && (|b| == 1 <==> formatted.Returned? && body.Returned? && body.value != [] && IsJsonContent(contentType))
      && (|b| == 1 ==> b[0] == Info(BodyLogger, BodyTemplate(side), body.value))
  {
    var w := Write(side, formatted, body, contentType);
    if formatted.Returned? {
      var e := w.events;
      assert e[0].logger == BasicLogger;
      assert BodyEvents(e) == BodyEvents(e[1..]);
      if |e| == 2 {
        assert e[1..][1..] == [];
        assert BodyEvents(e[1..]) == (if e[1].logger == BodyLogger then [e[1]] else []);
      } else {
        assert e[1..] == [];
      }
    }
  }

  /** The response overload behaves exactly as the request overload does, line for line, with
      "Response" in its texts where the other has "Request". */
  lemma SidesAgree(formatted: Outcome<string>, body: Outcome<string>, contentType: Option<string>)
    ensures var rq := Write(RequestSide, formatted, body, contentType);
      var rs := Write(ResponseSide, formatted, body, contentType);
      && rq.outcome == rs.outcome
      && |rq.events| == |rs.events|
      && (forall k :: 0 <= k < |rq.events| ==> Relabelled(rq.events[k]) == rs.events[k])
  {
  }

  /** The request texts swapped for the response ones. */
  function Relabelled(e: Event): (r: Event)
    ensures r.logger == e.logger && r.Info? == e.Info?
  {
    match e
    case Info(l, t, a) =>
      Info(l, if t == FormattedTemplate(RequestSide) then FormattedTemplate(ResponseSide)
              else if t == BodyTemplate(RequestSide) then BodyTemplate(ResponseSide) else t, a)
    case Error(l, m, c) =>
      Error(l, if m == FailureMessage(RequestSide) then FailureMessage(ResponseSide) else m, c)
  }

  /** An UnsupportedEncodingException while reading the body is an IOException: it is logged
      as an error on BASIC_LOGGER and the write completes normally. */
  lemma UnsupportedEncodingIsCaught(side: Side, text: string, charset: string, contentType: Option<string>)
    ensures Write(side, Returned(text), Threw(UnsupportedEncoding(charset)), contentType) ==
      Written(Returned(()), [Info(BasicLogger, FormattedTemplate(side), text),
                             Error(BasicLogger, FailureMessage(side), UnsupportedEncoding(charset))])
  {
  }

  /** A content type with parameters still counts as JSON; the test is case-sensitive, and any
      type that merely contains the text, such as application/jsonp, counts too. */
  lemma IsJsonContentExamples()
    ensures IsJsonContent(Some("application/json;charset=UTF-8"))
    ensures IsJsonContent(Some("application/jsonp"))
    ensures !IsJsonContent(Some("Application/JSON"))
    ensures !IsJsonContent(Some("text/plain"))
    ensures !IsJsonContent(None)
  {
    assert OccursAt("application/json;charset=UTF-8", JsonMediaType, 0);
    assert OccursAt("application/jsonp", JsonMediaType, 0);
    assert "Application/JSON"[0] != JsonMediaType[0];
  }
}
