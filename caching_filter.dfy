/** ContentCachingFilter: wraps request and response in caching wrappers, prints the request,
    runs the rest of the chain, and in a finally block prints the response and copies the
    buffered response body to the client. */
module CachingFilter {
  import opened Java
  import opened Charset
  import opened Servlet
  import CachingFilter2

  // ---------------------------------------------------------------- getFullUrl

  /** getFullUrl as written: the query is appended only when it is empty or absent, so a real
      query is dropped, and an absent one reaches URLDecoder.decode(null), which throws. */
  function GetFullUrlAsWritten(url: string, query: Option<string>, lib: Library): (r: Outcome<string>)
    ensures !IsEmpty(query) ==> r == Returned(url)
    ensures query.None? ==> r == Threw(NullPointer("s"))
  {
    if IsEmpty(query) then
      if query.None? then Threw(NullPointer("s"))
      else match lib.urlDecode(query.value)
        case Threw(e) => Threw(e)
        case Returned(t) => Returned(url + "?" + t)
    else Returned(url)
  }

  /** getFullUrl with the emptiness test the way round it was meant: the decoded query follows a
      '?' when there is one; otherwise the URL alone. Only a malformed escape in the query can
      make it throw. */
  function GetFullUrl(url: string, query: Option<string>, lib: Library): (r: Outcome<string>)
    ensures r.Threw? ==> !IsEmpty(query) && lib.urlDecode(query.value).Threw?
    ensures IsEmpty(query) ==> r == Returned(url)
    ensures !IsEmpty(query) && lib.urlDecode(query.value).Returned? ==>
              r == Returned(url + "?" + lib.urlDecode(query.value).value)
  {
    if IsEmpty(query) then Returned(url)
    else match lib.urlDecode(query.value)
      case Threw(e) => Threw(e)
      case Returned(t) => Returned(url + "?" + t)
  }

  /** The intended full URL is the request URL, then '?' and the decoded query when a query is
      present: it starts with the URL, and whatever follows the URL is exactly "?" + the
      decoded query. */
  lemma FullUrlExtendsUrl(url: string, query: Option<string>, lib: Library)
    requires GetFullUrl(url, query, lib).Returned?
    ensures var full := GetFullUrl(url, query, lib).value;
      && |full| >= |url| && full[..|url|] == url
      && (|full| > |url| <==> !IsEmpty(query))
      && (!IsEmpty(query) ==> full[|url|..] == "?" + lib.urlDecode(query.value).value)
  {
    var full := GetFullUrl(url, query, lib).value;
    if !IsEmpty(query) {
      assert full == url + ("?" + lib.urlDecode(query.value).value);
    }
  }

  /** With the identity as URL decoder, the request http://h/p?a=1 loses its query as written
      and keeps it once corrected. */
  lemma QueryDroppedExample()
    ensures var lib := Library((b, c) => None, s => Returned(s));
      && GetFullUrlAsWritten("http://h/p", Some("a=1"), lib) == Returned("http://h/p")
      && GetFullUrl("http://h/p", Some("a=1"), lib) == Returned("http://h/p?a=1")
  {
    var lib := Library((b, c) => None, s => Returned(s));
    assert GetFullUrl("http://h/p", Some("a=1"), lib).value == "http://h/p" + "?" + "a=1" == "http://h/p?a=1";
  }

  /** Which getFullUrl logRequest calls: the one in ContentCachingFilter, or the one with its
      emptiness test the intended way round. */
  datatype UrlVariant = AsWritten | Corrected

  function FullUrl(v: UrlVariant, url: string, query: Option<string>, lib: Library): Outcome<string>
  {
    match v
    case AsWritten => GetFullUrlAsWritten(url, query, lib)
    case Corrected => GetFullUrl(url, query, lib)
  }

  // ---------------------------------------------------------------- logRequest

  /** What a logging step printed, and the exception that ended it early, if any. */
  datatype Logged = Logged(lines: seq<Line>, failure: Option<Exc>)

  /** logRequest: banner, URL and method; then the full URL is computed (and never printed); then
      the header map, and the body in the charset of the request's content type when the
      buffer is not empty. An exception from the full URL ends it after the method line. */
  function LogRequest(req: Request, lib: Library, v: UrlVariant): Logged
  {
    var head := [RequestBanner, Url(req.url), HttpMethod(req.httpMethod)];
    match FullUrl(v, req.url, req.queryString, lib)
    case Threw(e) => Logged(head, Some(e))
    case Returned(_) =>
      var charset := GetCharset(req.contentType);
      Logged(head + [RequestHeaders(RequestHeaderMap(req.headers))]
                  + BodyLines(req.cachedBody, charset, lib, true), None)
  }

  /** The request lines: banner, URL and method come first whatever happens; on success the
      header map (first value per name) and at most one body line follow, the body line exactly
      when the buffered body is non-empty and decodes in the content type's charset. */
  lemma LogRequestLines(req: Request, lib: Library, v: UrlVariant)
    ensures var r := LogRequest(req, lib, v);
      && |r.lines| >= 3
      && r.lines[..3] == [RequestBanner, Url(req.url), HttpMethod(req.httpMethod)]
      && (r.failure.Some? <==> FullUrl(v, req.url, req.queryString, lib).Threw?)
      && (r.failure.Some? ==> r.failure.value == FullUrl(v, req.url, req.queryString, lib).exc)
      && (r.failure.Some? ==> |r.lines| == 3)
      && (r.failure.None? ==>
            && r.lines[3] == RequestHeaders(RequestHeaderMap(req.headers))
            && (|r.lines| == 5 <==>
                  |req.cachedBody| > 0 && lib.decode(req.cachedBody, GetCharset(req.contentType)).Some?)
            && 4 <= |r.lines| <= 5)
      && (forall k :: 0 <= k < |r.lines| ==> !r.lines[k].ResponseBanner?)
  {
    var r := LogRequest(req, lib, v);
    if r.failure.None? {
      var body := BodyLines(req.cachedBody, GetCharset(req.contentType), lib, true);
      assert r.lines == [RequestBanner, Url(req.url), HttpMethod(req.httpMethod),
                         RequestHeaders(RequestHeaderMap(req.headers))] + body;
    }
  }

  // ---------------------------------------------------------------- logResponse

  /** logResponse: banner, status, every response header with all of its values, and the body
      in the charset of the response's content type when the buffer is not empty. The duration
      handed to it is not printed. */
  function ResponseLines(s: ResponseState, lib: Library): seq<Line>
  {
    [ResponseBanner, Status(s.status), AllHeaders(s.headers.Grouped())]
      + BodyLines(s.cached, GetCharset(s.contentType), lib, false)
  }

  method LogResponse(response: ResponseWrapper, lib: Library) returns (lines: seq<Line>)
    requires response.headers.WellFormed()
    ensures lines == ResponseLines(response.State(), lib)
  {
    lines := [ResponseBanner, Status(response.status)];
    var headers := CollectHeaders(response.headers);
    assert headers.table.Grouped() == response.headers.Grouped();
    lines := lines + [AllHeaders(headers.table.Grouped())];
    var charset := GetCharset(response.contentType);
    lines := lines + BodyLines(response.cached, charset, lib, false);
  }

  // ---------------------------------------------------------------- doFilterInternal

  /** doFilterInternal as a function of the request, the response before it, what the chain
      does, and which getFullUrl logRequest calls. */
  function Filter(req: Request, response: ResponseState, chain: Downstream, lib: Library, v: UrlVariant): Exchange
  {
    var logged := LogRequest(req, lib, v);
    if logged.failure.Some? then Exchange(Threw(logged.failure.value), Prints(logged.lines), response)
    else
      var served := AfterChain(response, chain);
      Exchange(chain.completion,
               Sequenced(logged.lines, ResponseLines(served, lib), served.cached),
               CopiedBack(served))
  }

  /** doFilterInternal over a response that has no buffer yet. */
  method DoFilterInternal(req: Request, response: ResponseState, chain: Downstream, lib: Library, v: UrlVariant)
    returns (outcome: Outcome<()>, effects: seq<Effect>, after: ResponseState)
    requires response.cached == [] && response.headers.WellFormed()
    ensures Exchange(outcome, effects, after) == Filter(req, response, chain, lib, v)
  {
    var responseWrapper := new ResponseWrapper(response);
    var logged := LogRequest(req, lib, v);
    effects := Prints(logged.lines);
    if logged.failure.Some? {
      return Threw(logged.failure.value), effects, responseWrapper.State();
    }
    effects := effects + [ChainInvoked];
    var completion := responseWrapper.RunChain(chain);
    // finally
    AddAllWellFormed(response.headers, chain.addedHeaders);
    var lines := LogResponse(responseWrapper, lib);
    effects := effects + Prints(lines);
    var copied := responseWrapper.CopyBodyToResponse();
    effects := effects + [Copied(copied)];
    outcome := completion;
    after := responseWrapper.State();
  }

  // ---------------------------------------------------------------- what the sequencing guarantees

  /** An exception from logRequest leaves before the try: the chain never runs, nothing is
      copied back, and the response is untouched. */
  lemma RequestFailureSkipsChain(req: Request, response: ResponseState, chain: Downstream, lib: Library, v: UrlVariant)
    requires LogRequest(req, lib, v).failure.Some?
    ensures var x := Filter(req, response, chain, lib, v);
      && x.outcome == Threw(LogRequest(req, lib, v).failure.value)
      && (forall k :: !IsChainAt(x.effects, k) && !IsCopyAt(x.effects, k))
      && x.response == response
  {
  }

  /** Otherwise the chain runs exactly once; the response is logged exactly once, after it, and
      the body is copied back exactly once, last — whether the chain returned or threw; the
      filter completes as the chain did; the client receives exactly the bytes the chain wrote. */
  lemma ChainThenFinally(req: Request, response: ResponseState, chain: Downstream, lib: Library, v: UrlVariant)
    requires LogRequest(req, lib, v).failure.None?
    ensures var x := Filter(req, response, chain, lib, v);
      var n := |LogRequest(req, lib, v).lines|;
      && x.outcome == chain.completion
      && (forall k :: IsChainAt(x.effects, k) <==> k == n)
      && (forall k :: 0 <= k < |x.effects| ==> (x.effects[k] == Print(ResponseBanner) <==> k == n + 1))
      && (forall k :: IsCopyAt(x.effects, k) <==> k == |x.effects| - 1)
      && x.effects[|x.effects| - 1] == Copied(response.cached + chain.written)
      && x.response.delivered == response.delivered + response.cached + chain.written
      && x.response.cached == []
  {
    var logged := LogRequest(req, lib, v);
    LogRequestLines(req, lib, v);
    var served := AfterChain(response, chain);
    var lines := ResponseLines(served, lib);
    ResponseBannerFirst(served, lib);
    SequencedOnce(logged.lines, lines, served.cached);
  }

  // ---------------------------------------------------------------- the filter as written

  /** As written, a request without a query string makes logRequest throw NullPointerException
      right after the method line, before the try: the chain never runs, nothing is copied
      back, and the response is untouched. */
  lemma AsWrittenNoQueryStopsBeforeChain(req: Request, response: ResponseState, chain: Downstream, lib: Library)
    requires req.queryString.None?
    ensures var x := Filter(req, response, chain, lib, AsWritten);
      && x.outcome == Threw(NullPointer("s"))
      && x.effects == Prints([RequestBanner, Url(req.url), HttpMethod(req.httpMethod)])
      && (forall k :: !IsChainAt(x.effects, k) && !IsCopyAt(x.effects, k))
      && x.response == response
  {
    RequestFailureSkipsChain(req, response, chain, lib, AsWritten);
  }

  /** As written, a non-empty query string is never decoded, so logRequest cannot fail on it
      whatever the URL decoder would make of it: the chain runs right after the request lines,
      and the body is copied back last. */
  lemma AsWrittenQueryRunsChain(req: Request, response: ResponseState, chain: Downstream, lib: Library)
    requires !IsEmpty(req.queryString)
    ensures LogRequest(req, lib, AsWritten).failure.None?
    ensures var x := Filter(req, response, chain, lib, AsWritten);
      && x.outcome == chain.completion
      && IsChainAt(x.effects, |LogRequest(req, lib, AsWritten).lines|)
      && IsCopyAt(x.effects, |x.effects| - 1)
  {
    ChainThenFinally(req, response, chain, lib, AsWritten);
  }

  /** On a request without a query string the two variants part ways: as written the chain
      never runs, corrected it always does. */
  lemma VariantsDisagreeWithoutQuery(req: Request, response: ResponseState, chain: Downstream, lib: Library)
    requires req.queryString.None?
    ensures forall k :: !IsChainAt(Filter(req, response, chain, lib, AsWritten).effects, k)
    ensures IsChainAt(Filter(req, response, chain, lib, Corrected).effects, |LogRequest(req, lib, Corrected).lines|)
  {
    AsWrittenNoQueryStopsBeforeChain(req, response, chain, lib);
    ChainThenFinally(req, response, chain, lib, Corrected);
  }

  /** Once its full-URL step has returned, logRequest prints exactly what ContentCachingFilter2's
      logRequest prints for the same request. */
  lemma SameRequestLinesAsFilter2(req: Request, lib: Library, v: UrlVariant)
    requires LogRequest(req, lib, v).failure.None?
    ensures LogRequest(req, lib, v).lines == CachingFilter2.RequestLines(req, lib)
  {
  }

  /** The response banner opens the response lines and appears nowhere else in them. */
  lemma ResponseBannerFirst(s: ResponseState, lib: Library)
    ensures var lines := ResponseLines(s, lib);
      && lines != [] && lines[0] == ResponseBanner
      && forall k :: 1 <= k < |lines| ==> !lines[k].ResponseBanner?
  {
    var body := BodyLines(s.cached, GetCharset(s.contentType), lib, false);
    assert ResponseLines(s, lib) == [ResponseBanner, Status(s.status), AllHeaders(s.headers.Grouped())] + body;
  }
}
