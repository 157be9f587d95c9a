/** JsonErrorController: the /error endpoint that answers every forwarded error with a JSON map
    of timestamp, status, reason phrase, message and path, under the status the error carried. */
module ErrorController {
  import opened Java

  /** The request attributes the servlet container sets when it forwards an error:
      jakarta.servlet.error.status_code, .message and .request_uri. Null stands for an absent
      attribute. */
  datatype ErrorAttributes = ErrorAttributes(status: JObject, message: JObject, path: JObject)

  /** The ResponseEntity returned: the JSON body as a map, and the HttpStatus it is sent with, as
      its code and reason phrase. */
  datatype Entity = Entity(body: map<string, JObject>, statusCode: int32, reason: string)

  const InternalServerError: int32 := 500
  const UnknownError := "Unknown error occurred"
  const NoMessage := "No message available"
  const UnknownPath := "Unknown path"

  /** The five keys of the body. */
  const BodyKeys := {"timestamp", "status", "error", "message", "path"}

  /** HttpStatus.valueOf(code).getReasonPhrase(): `reasons` is the HttpStatus table, from code to
      reason phrase; a code it does not hold throws IllegalArgumentException. */
  function ReasonPhrase(reasons: map<int, string>, code: int32): (r: Outcome<string>)
    ensures r.Returned? <==> code in reasons
    ensures r.Returned? ==> r.value == reasons[code]
    ensures r.Threw? ==> r.exc.IllegalArgument?
  {
    if code in reasons then Returned(reasons[code])
    else Threw(IllegalArgument("No matching constant for [" + DecimalString(code) + "]"))
  }

  /** The status object actually used: the attribute, or the Integer 500 when it is absent. */
  function EffectiveStatus(attrs: ErrorAttributes): (s: JObject)
    ensures !s.Null?
    ensures attrs.status.Null? ==> s == Int(InternalServerError)
    ensures !attrs.status.Null? ==> s == attrs.status
  {
    if attrs.status.Null? then Int(InternalServerError) else attrs.status
  }

  /** Integer.parseInt(status.toString()): the code the response is sent with. */
  function StatusCode(attrs: ErrorAttributes): Outcome<int32>
  {
    ParseInt(EffectiveStatus(attrs).ToString())
  }

  /** handleError. `now` is the System.currentTimeMillis() reading. The status, message and path
      are read once; a missing status becomes 500 and also replaces the message. The map is
      filled key by key; the status text must parse as an int and name a known HttpStatus, or
      the handler throws and no entity is built. */
  method HandleError(attrs: ErrorAttributes, now: int64, reasons: map<int, string>) returns (r: Outcome<Entity>)
    ensures r.Returned? <==> StatusCode(attrs).Returned? && StatusCode(attrs).value in reasons
    ensures r.Threw? ==> (StatusCode(attrs).Threw? && r.exc == NumberFormat(EffectiveStatus(attrs).ToString()))
                         || (StatusCode(attrs).Returned? && r.exc.IllegalArgument?)
    ensures r.Returned? ==>
              var e := r.value;
              && e.body.Keys == BodyKeys
              && e.body["timestamp"] == Long(now)
              && e.body["status"] == EffectiveStatus(attrs)
              && e.statusCode == StatusCode(attrs).value
              && e.reason == reasons[e.statusCode]
              && e.body["error"] == Str(e.reason)
              && e.body["path"] == (if attrs.path.Null? then Str(UnknownPath) else attrs.path)
              && e.body["message"] == (if attrs.status.Null? then Str(UnknownError)
                                        else if attrs.message.Null? then Str(NoMessage)
                                        else attrs.message)
  {
    var response: map<string, JObject> := map[];
    var status := attrs.status;
    var message := attrs.message;
    var path := attrs.path;

    if status.Null? {
      status := Int(InternalServerError);
      message := Str(UnknownError);
    }

    response := response["timestamp" := Long(now)];
    response := response["status" := status];
    var code := ParseInt(status.ToString());
    assert status == EffectiveStatus(attrs) && code == StatusCode(attrs);
    if code.Threw? {
      return Threw(code.exc);
    }
    var reason := ReasonPhrase(reasons, code.value);
    if reason.Threw? {
      return Threw(reason.exc);
    }
    response := response["error" := Str(reason.value)];
    response := response["message" := if message.Null? then Str(NoMessage) else message];
    response := response["path" := if path.Null? then Str(UnknownPath) else path];

    assert response.Keys == BodyKeys;
    // The entity's HttpStatus comes from parsing and looking up the status a second time,
    // which gives the same code and reason as above.
    r := Returned(Entity(response, code.value, reason.value));
  }

  /** Without a status attribute the code is 500. */
  lemma MissingStatusIs500(message: JObject, path: JObject)
    ensures StatusCode(ErrorAttributes(Null, message, path)) == Returned(InternalServerError)
  {
    ParseIntOfDecimalString(InternalServerError);
  }

  /** An Integer status is sent back with its own code. */
  lemma IntStatusRoundTrip(code: int32, message: JObject, path: JObject)
    ensures StatusCode(ErrorAttributes(Int(code), message, path)) == Returned(code)
  {
    ParseIntOfDecimalString(code);
  }

  lemma DecimalText404()
    ensures DecimalString(404) == "404"
  {
    assert Digits(404) == Digits(40) + [DigitChar(4)];
    assert Digits(40) == Digits(4) + [DigitChar(0)];
  }

  /** An Integer status and its decimal text give the same code. */
  lemma StatusCodeOfNumber()
    ensures StatusCode(ErrorAttributes(Int(404), Null, Null)) == Returned(404)
    ensures StatusCode(ErrorAttributes(Str("404"), Null, Null)) == Returned(404)
  {
    ParseIntOfDecimalString(404);
    DecimalText404();
  }

  /** A status that is not decimal text throws NumberFormatException. */
  lemma StatusCodeOfWords()
    ensures StatusCode(ErrorAttributes(Str("Not Found"), Null, Null)) == Threw(NumberFormat("Not Found"))
  {
    assert !IsDigit("Not Found"[0]);
  }

  /** A Long status beyond the int range throws NumberFormatException. */
  lemma StatusCodeOfLong()
    ensures StatusCode(ErrorAttributes(Long(0x1_0000_0000), Null, Null)).Threw?
  {
    var big := Digits(0x1_0000_0000);
    DigitsValueOfDigits(0x1_0000_0000);
    assert EffectiveStatus(ErrorAttributes(Long(0x1_0000_0000), Null, Null)).ToString() == big;
    ParseIntOutOfRange(big);
  }
}
