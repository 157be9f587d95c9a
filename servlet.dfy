/** The servlet objects both capture filters work on: the request as the caching request
    wrapper presents it, a header table with one entry per name and every value in arrival
    order (the response's own headers and Spring's HttpHeaders), the caching response wrapper,
    what the rest of the filter chain does, and the lines the filters print. */
module Servlet {
  import opened Java

  // ---------------------------------------------------------------- the request

  /** A request as the filters read it. `headers` holds every header field in arrival order, a
      name once per value; `cachedBody` is what the caching request wrapper holds when the
      request is logged. */
  datatype Request = Request(
    url: string,
    httpMethod: string,
    queryString: Option<string>,
    headers: seq<(string, string)>,
    contentType: Option<string>,
    cachedBody: seq<byte>)

  /** The names that occur among the fields. */
  function NamesOf(fields: seq<(string, string)>): set<string>
  {
    set k | 0 <= k < |fields| :: fields[k].0
  }

  /** v is the value of the first field named `name`. */
  ghost predicate FirstValue(fields: seq<(string, string)>, name: string, v: string)
  {
    exists k :: 0 <= k < |fields| && fields[k] == (name, v) && forall j :: 0 <= j < k ==> fields[j].0 != name
  }

  lemma NamesOfCons(fields: seq<(string, string)>)
    requires fields != []
    ensures NamesOf(fields) == {fields[0].0} + NamesOf(fields[1..])
  {
    forall name | name in NamesOf(fields) ensures name in {fields[0].0} + NamesOf(fields[1..]) {
      var k :| 0 <= k < |fields| && fields[k].0 == name;
      if k > 0 { assert fields[1..][k - 1].0 == name; }
    }
    forall name | name in NamesOf(fields[1..]) ensures name in NamesOf(fields) {
      var k :| 0 <= k < |fields[1..]| && fields[1..][k].0 == name;
      assert fields[k + 1].0 == name;
    }
  }

  /** A first value behind a field of another name is still the first value. */
  lemma FirstValueBehind(fields: seq<(string, string)>, name: string, v: string)
    requires fields != [] && fields[0].0 != name && FirstValue(fields[1..], name, v)
    ensures FirstValue(fields, name, v)
  {
    var k :| 0 <= k < |fields[1..]| && fields[1..][k] == (name, v)
             && forall j :: 0 <= j < k ==> fields[1..][j].0 != name;
    assert fields[k + 1] == (name, v);
    forall j | 0 <= j < k + 1 ensures fields[j].0 != name {
      if j > 0 { assert fields[j] == fields[1..][j - 1]; }
    }
  }

  /** The map built from getHeaderNames and getHeader: one entry per header name, holding the
      first value that arrived under that name. */
  function RequestHeaderMap(fields: seq<(string, string)>): (m: map<string, string>)
    ensures m.Keys == NamesOf(fields)
    ensures forall name :: name in m ==> FirstValue(fields, name, m[name])
    decreases |fields|
  {
    if fields == [] then map[]
    else
      var rest := RequestHeaderMap(fields[1..]);
      var m := rest[fields[0].0 := fields[0].1];
      NamesOfCons(fields);
      assert forall name :: name in m && name != fields[0].0 ==> FirstValue(fields, name, m[name]) by {
        forall name | name in m && name != fields[0].0 ensures FirstValue(fields, name, m[name]) {
          FirstValueBehind(fields, name, m[name]);
        }
      }
      assert FirstValue(fields, fields[0].0, m[fields[0].0]) by {
        assert fields[0] == (fields[0].0, m[fields[0].0]);
      }
      m
  }

  // ---------------------------------------------------------------- header tables

  /** Headers as an ordered table: each name once, in the order it was first added, with all
      of its values in the order they were added. */
  datatype HeaderTable = HeaderTable(names: seq<string>, values: map<string, seq<string>>)
  {
    ghost predicate WellFormed()
    {
      && (forall i, j :: 0 <= i < j < |names| ==> names[i] != names[j])
      && (forall n :: n in values <==> n in names)
      && (forall n :: n in values ==> values[n] != [])
    }

    /** getHeaders(name): every value of the name, none for an absent name. */
    function Get(name: string): seq<string>
    {
      if name in values then values[name] else []
    }

    /** add(name, value): the value joins the end of the name's values; a new name joins the
        end of the names. */
    function Add(name: string, value: string): (t: HeaderTable)
      ensures WellFormed() ==> t.WellFormed()
      ensures t.Get(name) == Get(name) + [value]
      ensures forall n :: n != name ==> t.Get(n) == Get(n)
      ensures t.names == if name in values then names else names + [name]
    {
      var t := HeaderTable(if name in values then names else names + [name], values[name := Get(name) + [value]]);
      assert WellFormed() ==> (name in values <==> name in names);
      t
    }

    /** The table as it is printed: each name with its values, in name order. */
    function Grouped(): (g: seq<(string, seq<string>)>)
      ensures |g| == |names|
      ensures forall i :: 0 <= i < |names| ==> g[i] == (names[i], Get(names[i]))
    {
      seq(|names|, i requires 0 <= i < |names| => (names[i], Get(names[i])))
    }
  }

  const EmptyTable: HeaderTable := HeaderTable([], map[])

  /** The values that `fields` holds for `name`, in order. */
  function ValuesOf(fields: seq<(string, string)>, name: string): seq<string>
  {
    if fields == [] then []
    else (if fields[0].0 == name then [fields[0].1] else []) + ValuesOf(fields[1..], name)
  }

  /** addHeader for each field in turn. */
  function AddAll(t: HeaderTable, fields: seq<(string, string)>): HeaderTable
    decreases |fields|
  {
    if fields == [] then t else AddAll(t.Add(fields[0].0, fields[0].1), fields[1..])
  }

  /** Adding fields one by one keeps every value of every name, in arrival order. */
  lemma {:induction false} AddAllKeepsEveryValue(t: HeaderTable, fields: seq<(string, string)>)
    ensures forall n :: AddAll(t, fields).Get(n) == t.Get(n) + ValuesOf(fields, n)
    decreases |fields|
  {
    if fields != [] {
      var t1 := t.Add(fields[0].0, fields[0].1);
      AddAllKeepsEveryValue(t1, fields[1..]);
      forall n ensures AddAll(t, fields).Get(n) == t.Get(n) + ValuesOf(fields, n) {
        assert ValuesOf(fields, n) == (if fields[0].0 == n then [fields[0].1] else []) + ValuesOf(fields[1..], n);
        if n == fields[0].0 {
          assert t1.Get(n) == t.Get(n) + [fields[0].1];
        } else {
          assert t1.Get(n) == t.Get(n);
        }
      }
    }
  }

  /** Adding fields keeps a table well formed. */
  lemma {:induction false} AddAllWellFormed(t: HeaderTable, fields: seq<(string, string)>)
    requires t.WellFormed()
    ensures AddAll(t, fields).WellFormed()
    decreases |fields|
  {
    if fields != [] {
      AddAllWellFormed(t.Add(fields[0].0, fields[0].1), fields[1..]);
    }
  }

  /** Spring's HttpHeaders as logResponse fills it with repeated add. */
  class HttpHeaders {
    var table: HeaderTable

    constructor ()
      ensures table == EmptyTable
    {
      table := EmptyTable;
    }

    method Add(name: string, value: string)
      modifies this
      ensures table == old(table).Add(name, value)
    {
      table := table.Add(name, value);
    }
  }

  /** The inner loop of logResponse: add each value of one header name in turn. */
  method AddValues(headers: HttpHeaders, name: string, vs: seq<string>)
    requires name !in headers.table.values && vs != []
    modifies headers
    ensures headers.table.names == old(headers.table.names) + [name]
    ensures headers.table.Get(name) == vs
    ensures forall n :: n != name ==> headers.table.Get(n) == old(headers.table.Get(n))
    ensures old(headers.table.WellFormed()) ==> headers.table.WellFormed()
  {
    ghost var before := headers.table;
    headers.Add(name, vs[0]);
    var j := 1;
    while j < |vs|
      invariant 1 <= j <= |vs|
      invariant headers.table.names == before.names + [name]
      invariant name in headers.table.values
      invariant headers.table.Get(name) == vs[..j]
      invariant forall n :: n != name ==> headers.table.Get(n) == before.Get(n)
      invariant before.WellFormed() ==> headers.table.WellFormed()
    {
      headers.Add(name, vs[j]);
      assert vs[..j + 1] == vs[..j] + [vs[j]];
      j := j + 1;
    }
    assert vs[..j] == vs;
  }

  /** The loop logResponse runs: for each header name of the response, for each of its values,
      add the pair to a new HttpHeaders. The result holds the response's headers entry for
      entry: every value of a multi-valued name is kept. */
  method CollectHeaders(source: HeaderTable) returns (headers: HttpHeaders)
    requires source.WellFormed()
    ensures headers.table.names == source.names
    ensures forall n :: headers.table.Get(n) == source.Get(n)
  {
    headers := new HttpHeaders();
    var names := source.names;
    var i := 0;
    while i < |names|
      invariant 0 <= i <= |names|
      invariant headers.table.names == names[..i]
      invariant headers.table.WellFormed()
      invariant forall n :: n in names[..i] ==> headers.table.Get(n) == source.Get(n)
      invariant forall n :: n !in names[..i] ==> headers.table.Get(n) == []
    {
      var name := names[i];
      assert name in source.values && name !in headers.table.values;
      AddValues(headers, name, source.Get(name));
      assert names[..i + 1] == names[..i] + [name];
      i := i + 1;
    }
    assert names[..i] == names;
    forall n | n !in names ensures source.Get(n) == [] {
      assert n !in source.values;
    }
  }

  // ---------------------------------------------------------------- the caching response wrapper

  /** What ContentCachingResponseWrapper and the response under it hold: the status, content
      type, character encoding and headers set so far, the body bytes buffered by the wrapper
      (`cached`) and the bytes already passed to the client (`delivered`). */
  datatype ResponseState = ResponseState(
    status: int,
    contentType: Option<string>,
    characterEncoding: string,
    headers: HeaderTable,
    cached: seq<byte>,
    delivered: seq<byte>)

  /** What the rest of the filter chain does to the response: the status, content type and
      character encoding it sets (None leaves them as they were), the headers it adds, the body
      bytes it writes, and how doFilter completes. */
  datatype Downstream = Downstream(
    setStatus: Option<int>,
    setContentType: Option<string>,
    setCharacterEncoding: Option<string>,
    addedHeaders: seq<(string, string)>,
    written: seq<byte>,
    completion: Outcome<()>)

  /** The response after the chain ran: the written bytes are buffered, not delivered. */
  function AfterChain(s: ResponseState, d: Downstream): (r: ResponseState)
    ensures r.cached == s.cached + d.written && r.delivered == s.delivered
  {
    ResponseState(
      if d.setStatus.Some? then d.setStatus.value else s.status,
      if d.setContentType.Some? then d.setContentType else s.contentType,
      if d.setCharacterEncoding.Some? then d.setCharacterEncoding.value else s.characterEncoding,
      AddAll(s.headers, d.addedHeaders),
      s.cached + d.written,
      s.delivered)
  }

  /** copyBodyToResponse: the buffered bytes reach the client and the buffer is emptied. */
  function CopiedBack(s: ResponseState): (r: ResponseState)
    ensures r.delivered == s.delivered + s.cached && r.cached == []
    ensures r.status == s.status && r.headers == s.headers && r.contentType == s.contentType
  {
    s.(cached := [], delivered := s.delivered + s.cached)
  }

  class ResponseWrapper {
    var status: int
    var contentType: Option<string>
    var characterEncoding: string
    var headers: HeaderTable
    var cached: seq<byte>
    var delivered: seq<byte>

    function State(): ResponseState
      reads this
    {
      ResponseState(status, contentType, characterEncoding, headers, cached, delivered)
    }

    /** new ContentCachingResponseWrapper(response): an empty buffer over the response. */
    constructor (s: ResponseState)
      requires s.cached == []
      ensures State() == s
    {
      status := s.status;
      contentType := s.contentType;
      characterEncoding := s.characterEncoding;
      headers := s.headers;
      cached := s.cached;
      delivered := s.delivered;
    }

    /** filterChain.doFilter(requestWrapper, responseWrapper). */
    method RunChain(d: Downstream) returns (completion: Outcome<()>)
      modifies this
      ensures State() == AfterChain(old(State()), d)
      ensures completion == d.completion
    {
      if d.setStatus.Some? {
        status := d.setStatus.value;
      }
      if d.setContentType.Some? {
        contentType := d.setContentType;
      }
      if d.setCharacterEncoding.Some? {
        characterEncoding := d.setCharacterEncoding.value;
      }
      headers := AddAll(headers, d.addedHeaders);
      cached := cached + d.written;
      completion := d.completion;
    }

    /** copyBodyToResponse. */
    method CopyBodyToResponse() returns (copied: seq<byte>)
      modifies this
      ensures State() == CopiedBack(old(State()))
      ensures copied == old(cached)
    {
      copied := cached;
      delivered := delivered + cached;
      cached := [];
    }
  }

  // ---------------------------------------------------------------- what the filters emit

  /** A line on standard output or standard error. */
  datatype Line =
    | RequestBanner
    | Url(url: string)
    | HttpMethod(httpMethod: string)
    | RequestHeaders(headers: map<string, string>)   // written with Jackson's writeValueAsString
    | RequestBody(text: string)
    | ResponseBanner
    | Status(status: int)
    | AllHeaders(groups: seq<(string, seq<string>)>)  // written with HttpHeaders.toString
    | ResponseBody(text: string)
    | StackTrace(exc: Exc)                           // printStackTrace, on standard error

  /** What a filter does, in order: print, pass the request down the chain, copy the buffered
      response body to the client. */
  datatype Effect = Print(line: Line) | ChainInvoked | Copied(bytes: seq<byte>)

  function Prints(lines: seq<Line>): (es: seq<Effect>)
    ensures |es| == |lines|
    ensures forall k :: 0 <= k < |es| ==> es[k] == Print(lines[k])
  {
    seq(|lines|, k requires 0 <= k < |lines| => Print(lines[k]))
  }

  /** Library code the filters call and the model does not look into: new String(bytes,
      charset), which is None for a charset the platform does not support, and
      URLDecoder.decode(s, UTF_8), which throws on a malformed escape. */
  datatype Library = Library(
    decode: (seq<byte>, string) -> Option<string>,
    urlDecode: string -> Outcome<string>)

  /** The body line a filter prints for a buffered body, labelled as the request's or the
      response's: none for an empty buffer or an unsupported charset. */
  function BodyLines(body: seq<byte>, charset: string, lib: Library, request: bool): (r: seq<Line>)
    ensures |r| <= 1
    ensures r != [] <==> |body| > 0 && lib.decode(body, charset).Some?
    ensures r != [] ==> r[0] == (if request then RequestBody(lib.decode(body, charset).value)
                                 else ResponseBody(lib.decode(body, charset).value))
  {
    if |body| > 0 then
      match lib.decode(body, charset)
      case Some(text) => if request then [RequestBody(text)] else [ResponseBody(text)]
      case None => []
    else []
  }

  /** What doFilterInternal does once the request has been logged: the request lines, the
      chain, and in the finally block the response lines and the copy-back. */
  function Sequenced(requestLines: seq<Line>, responseLines: seq<Line>, copied: seq<byte>): seq<Effect>
  {
    Prints(requestLines) + [ChainInvoked] + Prints(responseLines) + [Copied(copied)]
  }

  /** In that sequence the chain runs exactly once, right after the request lines; the
      response banner is printed exactly once, right after the chain; the copy-back happens
      exactly once, and last. */
  lemma SequencedOnce(requestLines: seq<Line>, responseLines: seq<Line>, copied: seq<byte>)
    requires forall k :: 0 <= k < |requestLines| ==> !requestLines[k].ResponseBanner?
    requires responseLines != [] && responseLines[0] == ResponseBanner
    requires forall k :: 1 <= k < |responseLines| ==> !responseLines[k].ResponseBanner?
    ensures var es := Sequenced(requestLines, responseLines, copied);
      && (forall k :: IsChainAt(es, k) <==> k == |requestLines|)
      && (forall k :: IsCopyAt(es, k) <==> k == |es| - 1)
      && (forall k :: 0 <= k < |es| ==> (es[k] == Print(ResponseBanner) <==> k == |requestLines| + 1))
  {
    var es := Sequenced(requestLines, responseLines, copied);
    var n := |requestLines|;
    assert |es| == n + 1 + |responseLines| + 1;
    forall k | 0 <= k < |es|
      ensures es[k] == if k < n then Print(requestLines[k])
                       else if k == n then ChainInvoked
                       else if k < |es| - 1 then Print(responseLines[k - n - 1])
                       else Copied(copied)
    {
    }
  }

  /** How one request passes a filter: how doFilterInternal completes, what it did in order,
      and the response afterwards. */
  datatype Exchange = Exchange(outcome: Outcome<()>, effects: seq<Effect>, response: ResponseState)

  /** The positions of chain invocations in an effect sequence. */
  predicate IsChainAt(es: seq<Effect>, k: int)
  {
    0 <= k < |es| && es[k].ChainInvoked?
  }

  predicate IsCopyAt(es: seq<Effect>, k: int)
  {
    0 <= k < |es| && es[k].Copied?
  }
}
