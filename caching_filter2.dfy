/** ContentCachingFilter2: the earlier variant of the capture filter. It has no full-URL step,
    and it decodes the response body in the response's character encoding, printing a stack
    trace when that encoding is not supported. */
module CachingFilter2 {
  import opened Java
  import opened Charset
  import opened Servlet

  /** logRequest: banner, URL, method, the header map, and the body in the charset of the
      request's content type when the buffer is not empty. Nothing in it throws. */
  function RequestLines(req: Request, lib: Library): seq<Line>
  {
    [RequestBanner, Url(req.url), HttpMethod(req.httpMethod), RequestHeaders(RequestHeaderMap(req.headers))]
      + BodyLines(req.cachedBody, GetCharset(req.contentType), lib, true)
  }

  /** The request lines: banner, URL, method and the header map (the first value of each
      name), then one body line exactly when the buffered body is non-empty and decodes in the
      charset of the request's content type; nothing in logRequest fails, and it never prints
      the response banner. */
  lemma LogRequestLines(req: Request, lib: Library)
    ensures var lines := RequestLines(req, lib);
      && 4 <= |lines| <= 5
      && lines[..4] == [RequestBanner, Url(req.url), HttpMethod(req.httpMethod),
                        RequestHeaders(RequestHeaderMap(req.headers))]
      && (|lines| == 5 <==>
            |req.cachedBody| > 0 && lib.decode(req.cachedBody, GetCharset(req.contentType)).Some?)
      && (|lines| == 5 ==>
            lines[4] == RequestBody(lib.decode(req.cachedBody, GetCharset(req.contentType)).value))
      && (forall k :: 0 <= k < |lines| ==> !lines[k].ResponseBanner?)
  {
    var body := BodyLines(req.cachedBody, GetCharset(req.contentType), lib, true);
    assert RequestLines(req, lib) == [RequestBanner, Url(req.url), HttpMethod(req.httpMethod),
                                      RequestHeaders(RequestHeaderMap(req.headers))] + body;
  }

  /** The response body line: the buffer decoded in the response's character encoding, or the
      stack trace of the UnsupportedEncodingException when it cannot be; nothing for an empty
      buffer. */
  function ResponseBodyLines(s: ResponseState, lib: Library): seq<Line>
  {
    if |s.cached| > 0 then
      match lib.decode(s.cached, s.characterEncoding)
      case Some(text) => [ResponseBody(text)]
      case None => [StackTrace(UnsupportedEncoding(s.characterEncoding))]
    else []
  }

  /** logResponse: banner, status, every response header with all of its values, the body. */
  function ResponseLines(s: ResponseState, lib: Library): seq<Line>
  {
    [ResponseBanner, Status(s.status), AllHeaders(s.headers.Grouped())] + ResponseBodyLines(s, lib)
  }

  method LogResponse(response: ResponseWrapper, lib: Library) returns (lines: seq<Line>)
    requires response.headers.WellFormed()
    ensures lines == ResponseLines(response.State(), lib)
  {
    lines := [ResponseBanner, Status(response.status)];
    var headers := CollectHeaders(response.headers);
    assert headers.table.Grouped() == response.headers.Grouped();
    lines := lines + [AllHeaders(headers.table.Grouped())];
    if |response.cached| > 0 {
      var decoded := lib.decode(response.cached, response.characterEncoding);
      if decoded.Some? {
        lines := lines + [ResponseBody(decoded.value)];
      } else {
        lines := lines + [StackTrace(UnsupportedEncoding(response.characterEncoding))];
      }
    }
  }

  function Filter(req: Request, response: ResponseState, chain: Downstream, lib: Library): Exchange
  {
    var served := AfterChain(response, chain);
    Exchange(chain.completion,
             Sequenced(RequestLines(req, lib), ResponseLines(served, lib), served.cached),
             CopiedBack(served))
  }

  /** doFilterInternal over a response that has no buffer yet. */
  method DoFilterInternal(req: Request, response: ResponseState, chain: Downstream, lib: Library)
    returns (outcome: Outcome<()>, effects: seq<Effect>, after: ResponseState)
    requires response.cached == [] && response.headers.WellFormed()
    ensures Exchange(outcome, effects, after) == Filter(req, response, chain, lib)
  {
    var responseWrapper := new ResponseWrapper(response);
    effects := Prints(RequestLines(req, lib));
    effects := effects + [ChainInvoked];
    var completion := responseWrapper.RunChain(chain);
    // finally
    AddAllWellFormed(response.headers, chain.addedHeaders);
    var lines := LogResponse(responseWrapper, lib);
    effects := effects + Prints(lines);
    var copied := responseWrapper.CopyBodyToResponse();
    effects := effects + [Copied(copied)];
    outcome := completion;
    after := responseWrapper.State();
  }

  /** The response body is decoded in the response's character encoding alone: its content type
      has no influence on what logResponse prints. */
  lemma ResponseIgnoresContentType(s: ResponseState, lib: Library, contentType: Option<string>)
    ensures ResponseLines(s.(contentType := contentType), lib) == ResponseLines(s, lib)
  {
  }

  /** A body line is printed only for a non-empty buffer; an unsupported encoding prints a
      stack trace in its place, and either way logResponse prints exactly one line after the
      headers. */
  lemma ResponseBodyLineOnlyWhenBuffered(s: ResponseState, lib: Library)
    ensures |ResponseBodyLines(s, lib)| == (if |s.cached| > 0 then 1 else 0)
    ensures |s.cached| > 0 && lib.decode(s.cached, s.characterEncoding).None? ==>
              ResponseBodyLines(s, lib) == [StackTrace(UnsupportedEncoding(s.characterEncoding))]
    ensures |s.cached| > 0 && lib.decode(s.cached, s.characterEncoding).Some? ==>
              ResponseBodyLines(s, lib) == [ResponseBody(lib.decode(s.cached, s.characterEncoding).value)]
  {
  }

  /** For every request: the chain runs exactly once, right after the request lines; the
      response is logged exactly once, after it, and the body is copied back exactly once,
      last — whether the chain returned or threw, and whatever the decoding did; the filter
      completes as the chain did; the client receives exactly the bytes the chain wrote. */
  lemma ChainThenFinally(req: Request, response: ResponseState, chain: Downstream, lib: Library)
    ensures var x := Filter(req, response, chain, lib);
      var n := |RequestLines(req, lib)|;
      && x.outcome == chain.completion
      && (forall k :: IsChainAt(x.effects, k) <==> k == n)
      && (forall k :: 0 <= k < |x.effects| ==> (x.effects[k] == Print(ResponseBanner) <==> k == n + 1))
      && (forall k :: IsCopyAt(x.effects, k) <==> k == |x.effects| - 1)
      && x.effects[|x.effects| - 1] == Copied(response.cached + chain.written)
      && x.response.delivered == response.delivered + response.cached + chain.written
      && x.response.cached == []
  {
    var requestLines := RequestLines(req, lib);
    LogRequestLines(req, lib);
    var served := AfterChain(response, chain);
    var lines := ResponseLines(served, lib);
    ResponseBannerFirst(served, lib);
    SequencedOnce(requestLines, lines, served.cached);
  }

  /** The response banner opens the response lines and appears nowhere else in them. */
  lemma ResponseBannerFirst(s: ResponseState, lib: Library)
    ensures var lines := ResponseLines(s, lib);
      && lines != [] && lines[0] == ResponseBanner
      && forall k :: 1 <= k < |lines| ==> !lines[k].ResponseBanner?
  {
    var tail := ResponseBodyLines(s, lib);
    assert ResponseLines(s, lib) == [ResponseBanner, Status(s.status), AllHeaders(s.headers.Grouped())] + tail;
  }
}
