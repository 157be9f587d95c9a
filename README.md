# Capture core of jyj-home/demo, in Dafny

This project models the diagnostic-capture core of a Spring Boot / MyBatis demo service and
proves properties of the model:

- **FullSqlExecutionTimeInterceptor** times each MyBatis statement. In a `finally` block it
  rebuilds a literal SQL text from the statement template and its parameter mappings, and logs
  it. There are two variants of the rebuild:
  - the instance `getRealSql`, with `formatParameter`;
  - the unused static `getRealSql`, with its own rendering.
- **ContentCachingFilter** and **ContentCachingFilter2** are servlet filters. They print the
  request, run the rest of the chain, then in a `finally` block print the response and copy
  the buffered response body back to the client. Both resolve a body charset with the
  `charset\s*=\s*([\w-]+)` scanner, a simplified reading of the charset parameter of section
  8.3.2 of RFC 9110.
- **SqlCostLoggingInterceptor** logs each statement on one line. Whitespace runs are collapsed
  and the text is trimmed. It also logs the result count, or only the cost for a cursor query.
- **DualLogSink** is a Logbook sink. It always sends the formatted message to `BASIC_LOGGER`,
  and sends a non-empty JSON body on its own to `BODY_LOGGER`.
- **JsonErrorController** builds the JSON error body:
  - the status, message and path are defaulted;
  - the reason phrase is looked up from the status code.

## How it is modelled

Files and modules:

- `java.dfy` (`Java`) holds the Java behaviour the core relies on:
  - exceptions as an `Outcome` datatype;
  - Java values (`JObject`);
  - `Integer.toString` / `Integer.parseInt`;
  - `String.trim`;
  - the regex classes `\s` and `\w`;
  - `String.replaceFirst("\\?", r)`, including Matcher's `$n` / `\` replacement syntax and the
    NullPointerException for a null replacement.
- `charset.dfy` (`Charset`): `getCharset`, whose code is identical in both filters.
- `servlet.dfy` (`Servlet`) holds the servlet objects:
  - the request;
  - header tables, and Spring's `HttpHeaders` as a class;
  - the caching response wrapper as a class;
  - the printed lines and the effect sequence.
- `caching_filter.dfy` (`CachingFilter`) and `caching_filter2.dfy` (`CachingFilter2`): the two
  filters.
- `full_sql.dfy` (`FullSql`), `sql_cost.dfy` (`SqlCost`), `dual_log_sink.dfy` (`DualLogSink`)
  and `error_controller.dfy` (`ErrorController`): one module per class.

Loops and in-place updates in the Java code are methods in the model:

- `getRealSql` (both variants) are methods with loops, each proved equal to a specification
  function (`RealSql`, `StaticRealSql`); the properties are proved about those functions;
- the header accumulation in `logResponse` is a method with nested loops over an
  `HttpHeaders` class; `CollectHeaders` is characterised by its `ensures` (the same names, and
  every value of each name, in order);
- `doFilterInternal` of both filters is a straight-line method over the response-wrapper
  class, proved equal to a function `Filter`, about which the sequencing lemmas are proved;
- `handleError` is a straight-line method that fills the body map; it is characterised by its
  `ensures`, not by a function.

Straight-line decision code is written as functions returning the result together with the
events logged:

- `SqlCostLoggingInterceptor.intercept`;
- `DualLogSink.write`;
- `formatParameter`;
- `getCharset`;
- `getFullUrl`.

Collaborators are inputs:

- clocks are readings passed in;
- reflection is a property→value map, where a missing name is a failed lookup;
- the TypeHandlerRegistry is a set of class names;
- `new String(bytes, charset)` and `URLDecoder.decode` are function values;
- the Logbook formatter and `getBodyAsString` are given as outcomes;
- the `HttpStatus` table is a code→reason map;
- what the filter chain does is a `Downstream` value.

Points where the code does something a reader might not expect, and which the model follows:

- the request header map keeps the **first** value of a repeated name, since it uses
  `getHeader`, not the last;
- `ContentCachingFilter.logResponse` receives the duration but never prints it;
- the full URL is computed in `logRequest` but never printed;
- the instance `getRealSql` runs in the `finally` block of `intercept`, so a failure while
  rebuilding the SQL (a null rendering, a `$` in a value, or an undeclared property) replaces
  the statement's own result or exception; it is not degraded to partial text. As written, the
  instance `getRealSql` (FullSqlExecutionTimeInterceptor.java:54, 71-73) neither catches nor
  declares the checked `NoSuchFieldException` and `IllegalAccessException` of
  `getDeclaredField` and `Field.get`, so the file does not compile as it stands; the
  undeclared-property path models a variant that compiles, for instance one that declares
  them, in which they propagate unchanged.
- `ContentCachingFilter.logRequest` calls `getFullUrl` as written, whose emptiness test is
  inverted (see "## Findings"). `CachingFilter.Filter` and `CachingFilter.DoFilterInternal`
  take the variant as a parameter: `AsWritten` is the filter of the source, `Corrected` the one
  evidently intended. The sequencing lemmas hold for both, and the lemmas on `AsWritten` show
  what the source does.

## Model

| member | source | states |
|---|---|---|
| FullSql.ResolveValue | FullSqlExecutionTimeInterceptor.java:64-74 | the four steps in order: an additional parameter registered under the property wins; else null when there is no parameter object; else the parameter object itself when the registry handles its class; else the property read from the object, which succeeds exactly when the object has it (a declared field for the instance variant, a readable property for the static one) and gives its value; a lookup can only fail in that last step |
| FullSql.FormatParameter | FullSqlExecutionTimeInterceptor.java:81-92 | null renders as Java null; strings, characters and dates are single-quoted around their text verbatim (no escaping), dates in their formatted text; anything else is its unquoted toString |
| FullSql.GetRealSql | FullSqlExecutionTimeInterceptor.java:54-79 | the loop computes the per-mapping leftmost-`?` rewrite, the first exception ending it; with no mappings the template comes back unchanged |
| FullSql.Intercept | FullSqlExecutionTimeInterceptor.java:34-51 | returns what proceed returned or threw when the SQL rebuild succeeds, and then logs one line on the mapper's logger with the method name, end − start and the SQL; a rebuild exception replaces the outcome and nothing is logged |
| FullSql.RealSqlIsFill | FullSqlExecutionTimeInterceptor.java:61-76 | with renderings free of `?`, `$` and `\`, the result is the intended substitution: the k-th rendering fills the k-th `?` of the template |
| FullSql.FillLeavesSurplus | FullSqlExecutionTimeInterceptor.java:75 | each value consumes one placeholder until none is left: max(0, placeholders − values) remain |
| FullSql.RealSqlSurplusPlaceholders | FullSqlExecutionTimeInterceptor.java:61-76 | mappings and placeholders may disagree in count: the rebuilt SQL keeps max(0, placeholders − mappings) placeholders |
| FullSql.NoPlaceholderLeft | FullSqlExecutionTimeInterceptor.java:61-76 | once no `?` remains, every further resolvable non-null mapping leaves the text unchanged |
| FullSql.NullParameterObjectThrows | FullSqlExecutionTimeInterceptor.java:66-75 | with no parameter object and no additional parameter for the first mapping, its null value reaches replaceFirst as a null replacement and the rebuild throws NullPointerException |
| FullSql.NullValueThrows | FullSqlExecutionTimeInterceptor.java:61-75 | a null value at any mapping (a null additional parameter, no parameter object, or a null field), after mappings whose renderings hold no `$` or `\`, makes the rebuild throw NullPointerException |
| FullSql.TypeHandledFillsEveryMapping | FullSqlExecutionTimeInterceptor.java:64-69 | a parameter object of a type-handled class is the value of every mapping without an additional parameter: all of them render the same text |
| FullSql.PlaceholderInValueIsConsumed | FullSqlExecutionTimeInterceptor.java:75 | a `?` inside an inserted value is the next mapping's placeholder: `a = ? and b = ?` with a = "?", b = 5 gives `a = '5' and b = ?` |
| FullSql.DollarInValueThrows | FullSqlExecutionTimeInterceptor.java:75 | a `$5` in a string value is read as a group reference and the rebuild throws IndexOutOfBoundsException |
| FullSql.ExampleInstance | FullSqlExecutionTimeInterceptor.java:81-92 | id = 42, name = "Alice" rebuild as `SELECT * FROM t WHERE id = 42 AND name = 'Alice'` |
| FullSql.StaticGetRealSql | FullSqlExecutionTimeInterceptor.java:94-129 | the two loops (fill the array, then rewrite) compute the specification: collect all values, then substitute each rendering in turn |
| FullSql.StaticRealSqlIsFill | FullSqlExecutionTimeInterceptor.java:122-126 | with quoted renderings free of `?`, `$` and `\`, the static result is the intended substitution: the k-th collected value fills the k-th `?` |
| FullSql.CollectOnePerMapping | FullSqlExecutionTimeInterceptor.java:104-120 | the static variant collects exactly one value per mapping, the k-th being the k-th mapping's resolved value |
| FullSql.CollectStopsAtFailure | FullSqlExecutionTimeInterceptor.java:104-117 | a failed lookup ends the collection with that failure |
| FullSql.StaticRealSqlNoNullPointer | FullSqlExecutionTimeInterceptor.java:123-126 | the static variant never throws NullPointerException: null renders as the token null |
| FullSql.ExampleStatic | FullSqlExecutionTimeInterceptor.java:124 | the static variant quotes numbers too: `... id = '42' AND name = 'Alice'` |
| Java.ReplaceFirstLiteral | FullSqlExecutionTimeInterceptor.java:75 | replaceFirst with a literal replacement rewrites exactly the leftmost `?`, or returns the text unchanged when there is none |
| Java.ParseIntOfDecimalString | JsonErrorController.java:42 | Integer.parseInt of an int's decimal text gives the int back |
| Java.Trim | SqlCostLoggingInterceptor.java:40 | the result has no character ≤ U+0020 at either end and is the input with only such characters cut off both ends |
| SqlCost.Collapse | SqlCostLoggingInterceptor.java:40 | after replaceAll the only `\s` left is a plain space, no two `\s` are adjacent, and the text is empty exactly when the input is |
| SqlCost.CollapseKeepsVisible | SqlCostLoggingInterceptor.java:40 | collapsing keeps every character above U+0020, in order |
| SqlCost.NormalizeSqlShape | SqlCostLoggingInterceptor.java:40 | the logged SQL has no leading or trailing whitespace and no two adjacent whitespace characters, its only whitespace is a space, and it keeps every visible character in order |
| SqlCost.NormalizeIdempotent | SqlCostLoggingInterceptor.java:40 | normalising already normalised SQL leaves it unchanged |
| SqlCost.NormalizeExample | SqlCostLoggingInterceptor.java:40 | `"\n  SELECT *\n\tFROM t  "` is logged as `SELECT * FROM t` |
| SqlCost.ResultSize | SqlCostLoggingInterceptor.java:52-57 | a List counts its size(); any other non-null result counts 1, and null counts 0 |
| SqlCost.Param | SqlCostLoggingInterceptor.java:38 | the parameter object is args[1] when there is one, else null |
| SqlCost.InterceptContract | SqlCostLoggingInterceptor.java:31-62 | intercept returns or rethrows exactly what proceed did; nothing is logged when proceed throws; otherwise mapper id, one-line SQL, then a cursor line for queryCursor or a Total line with the result size and the cost |
| Charset.GetCharset | ContentCachingFilter.java:140-152 | the result is a non-empty run of `[\w-]` characters, and "UTF-8" for a null or empty content type |
| Charset.MatchAtSound | ContentCachingFilter.java:37 | what the scanner reports at a position is a match of `charset\s*=\s*([\w-]+)` there |
| Charset.MatchAtComplete | ContentCachingFilter.java:37 | every match of the pattern at a position is the one the scanner reports there |
| Charset.FindFromLeftmost | ContentCachingFilter.java:148 | Matcher.find reports the leftmost match |
| Charset.GetCharsetFound | ContentCachingFilter.java:147-150 | when some match exists, getCharset returns the capture of a match with none to its left |
| Charset.GetCharsetLeftmost | ContentCachingFilter.java:147-150 | the capture of the leftmost match is what getCharset returns |
| Charset.GetCharsetNoMatch | ContentCachingFilter.java:147-151 | without a match getCharset falls back to "UTF-8" |
| Charset.TrimIsIdentityOnCaptures | ContentCachingFilter.java:149 | the trim of the capture is a no-op |
| Charset.SampleSpacedUtf8 | ContentCachingFilter2.java:111 | `text/html; charset =   utf-8` gives `utf-8` |
| Charset.SampleNoCharset | ContentCachingFilter2.java:111 | `text/plain`, a content type without a charset parameter, gives `UTF-8` |
| Charset.SampleUtf16le | ContentCachingFilter2.java:112 | `text/css;charset =utf-16le` gives `utf-16le` |
| Charset.SampleEmptyValue | ContentCachingFilter2.java:112 | `application/xml; Charset=   ` gives `UTF-8` |
| Charset.SampleInsideWord | ContentCachingFilter.java:37 | `charset` need not start a word: `xcharset=latin1` gives `latin1` |
| Servlet.RequestHeaderMap | ContentCachingFilter.java:84-85 | one entry per header name, holding the first value that arrived under it |
| Servlet.HeaderTable.Add | ContentCachingFilter.java:119 | HttpHeaders.add appends the value to the name's values, leaves every other name alone and keeps the table well formed |
| Servlet.AddValues | ContentCachingFilter.java:119 | the inner forEach adds all values of one name, in order |
| Servlet.CollectHeaders | ContentCachingFilter.java:117-119 | the accumulated HttpHeaders holds the response's headers name for name, in order, with every value of a multi-valued name |
| Servlet.ResponseWrapper.RunChain | ContentCachingFilter.java:55 | the chain's body bytes are buffered by the wrapper, not delivered |
| Servlet.ResponseWrapper.CopyBodyToResponse | ContentCachingFilter.java:62 | the buffered bytes are delivered and the buffer emptied |
| Servlet.BodyLines | ContentCachingFilter.java:103-110 | a body line is printed exactly when the buffer is non-empty and decodes in the charset; an unsupported charset prints nothing |
| Servlet.SequencedOnce | ContentCachingFilter.java:52-63 | request lines, the chain once, the response lines with their one banner, and the copy-back once and last |
| CachingFilter.GetFullUrl | ContentCachingFilter.java:154-161 | corrected getFullUrl: the URL alone without a query, else URL + "?" + decoded query; only a malformed escape throws |
| CachingFilter.FullUrlExtendsUrl | ContentCachingFilter.java:154-161 | the full URL starts with the URL, and is longer exactly when a query is present, by "?" + the decoded query |
| CachingFilter.GetFullUrlAsWritten | ContentCachingFilter.java:154-161 | as written, a non-empty query string is never appended, and a request without a query string throws NullPointerException in URLDecoder.decode |
| CachingFilter.QueryDroppedExample | ContentCachingFilter.java:156-157 | `http://h/p?a=1` loses `?a=1` as written and keeps it once corrected |
| CachingFilter.LogRequestLines | ContentCachingFilter.java:73-111 | for either getFullUrl variant: banner, URL and method are printed first; an exception from the full-URL step ends logRequest there with that exception; otherwise the first-value header map and at most one body line follow, the body line exactly when the body is non-empty and decodes in the content type's charset |
| CachingFilter.LogResponse | ContentCachingFilter.java:113-134 | banner, status, every header with all its values, and the body in the content type's charset when buffered |
| CachingFilter.DoFilterInternal | ContentCachingFilter.java:42-64 | the method over the wrapper class computes the filter specification (outcome, effect sequence, final response) for the getFullUrl variant it is given, the source's `AsWritten` or the `Corrected` one |
| CachingFilter.RequestFailureSkipsChain | ContentCachingFilter.java:52-55 | for either variant, an exception in logRequest leaves before the try: no chain, no copy-back, response untouched |
| CachingFilter.ChainThenFinally | ContentCachingFilter.java:54-63 | for either variant, when logRequest completes the chain runs once, then the response is logged once and copied back once, last, whether the chain returned or threw; the filter completes as the chain did and the client gets exactly the bytes the chain wrote |
| CachingFilter.AsWrittenNoQueryStopsBeforeChain | ContentCachingFilter.java:52-55 | as written, a request without a query string throws NullPointerException from logRequest after the method line: the chain never runs, nothing is copied back, the response is untouched |
| CachingFilter.AsWrittenQueryRunsChain | ContentCachingFilter.java:52-63 | as written, a non-empty query string is never decoded, so logRequest cannot fail on it whatever the decoder would do; the chain runs and the body is copied back last |
| CachingFilter.VariantsDisagreeWithoutQuery | ContentCachingFilter.java:154-161 | without a query string the as-written filter never reaches the chain and the corrected one always does |
| CachingFilter.SameRequestLinesAsFilter2 | ContentCachingFilter.java:73-111 | once its full-URL step returns, logRequest prints exactly what ContentCachingFilter2's logRequest prints |
| CachingFilter2.LogResponse | ContentCachingFilter2.java:88-107 | the accumulated headers, then the body in the response's character encoding, or a stack trace when that encoding is unsupported |
| CachingFilter2.LogRequestLines | ContentCachingFilter2.java:52-86 | banner, URL, method and the first-value header map, then one body line exactly when the body is non-empty and decodes in the content type's charset; logRequest cannot fail |
| CachingFilter2.DoFilterInternal | ContentCachingFilter2.java:33-50 | the method over the wrapper class computes the filter specification |
| CachingFilter2.ResponseIgnoresContentType | ContentCachingFilter2.java:101 | the response body's decoding does not depend on the content type: getCharset is not used for responses |
| CachingFilter2.ResponseBodyLineOnlyWhenBuffered | ContentCachingFilter2.java:98-106 | exactly one line after the headers for a non-empty buffer, none for an empty one; an unsupported encoding prints its stack trace instead of the body |
| CachingFilter2.ChainThenFinally | ContentCachingFilter2.java:40-49 | for every request the chain runs once, then the response is logged once and copied back once, last; the filter completes as the chain did |
| DualLogSink.IsJsonContent | DualLogSink.java:62-65 | true exactly when a content type is present and contains `application/json` somewhere |
| DualLogSink.Write | DualLogSink.java:29-43 | a formatter exception propagates before anything is logged; otherwise the formatted text goes first to BASIC_LOGGER; the body goes to BODY_LOGGER iff it is non-empty JSON; an IOException from the body (UnsupportedEncodingException included) becomes an error on BASIC_LOGGER and the write succeeds; any other body exception propagates |
| DualLogSink.UnsupportedEncodingIsCaught | DualLogSink.java:35-42 | an UnsupportedEncodingException from the body is an IOException: it is logged as an error on BASIC_LOGGER and the write completes |
| DualLogSink.BodyLoggerOnlyJson | DualLogSink.java:35-42 | BODY_LOGGER receives at most one line per write, and exactly the body of a non-empty JSON message |
| DualLogSink.SidesAgree | DualLogSink.java:46-60 | the response overload behaves as the request overload, line for line, with its own texts |
| DualLogSink.IsJsonContentExamples | DualLogSink.java:62-65 | `application/json;charset=UTF-8` and `application/jsonp` count, `Application/JSON`, `text/plain` and a missing type do not |
| ErrorController.HandleError | JsonErrorController.java:28-47 | a response exactly when the status text parses as an int that names a known status; otherwise NumberFormatException or IllegalArgumentException; the body has exactly the five keys, the status defaults to 500 with message "Unknown error occurred", a null message becomes "No message available", a null path "Unknown path", and the entity's code and the body's reason are the parsed status and its phrase |
| ErrorController.EffectiveStatus | JsonErrorController.java:35-38 | a missing status becomes the Integer 500; a present one is kept |
| ErrorController.ReasonPhrase | JsonErrorController.java:42 | HttpStatus.valueOf gives the table's reason for a known code and throws IllegalArgumentException for any other |
| ErrorController.MissingStatusIs500 | JsonErrorController.java:35-36 | without a status attribute the entity is sent with code 500 |
| ErrorController.IntStatusRoundTrip | JsonErrorController.java:42-46 | an Integer status is sent with its own code |
| ErrorController.StatusCodeOfNumber | JsonErrorController.java:42 | the Integer 404 and the text "404" both give code 404 |
| ErrorController.StatusCodeOfWords | JsonErrorController.java:42 | the text "Not Found" throws NumberFormatException |
| ErrorController.StatusCodeOfLong | JsonErrorController.java:42 | a Long status beyond the int range throws NumberFormatException |

## Left out

- LogbookConfig, `doFilterNestedErrorDispatch`, the MetaObject lookup of `delegate.mappedStatement` and the plugin registration: wiring with no logic of its own.
- Reflection, `MetaObject.getValue` and `TypeHandlerRegistry.hasTypeHandler` are replaced by maps and a set of class names. `setAccessible` failures are not modelled.
- `SimpleDateFormat`, `toString` of arbitrary objects, `new String(bytes, charset)`, `URLDecoder.decode`, Jackson's `writeValueAsString`, `HttpHeaders.toString` and the Logbook formatter are opaque. Their text is an input, or a function value.
- Jackson's `JsonProcessingException` on the header map is not modelled: a map of strings always serialises.
- The `HttpStatus` table is an input map, not the Spring constant list.
- `System.currentTimeMillis` and `Instant.now` readings are parameters. `ContentCachingFilter`'s duration is not modelled, because it is never printed.
- FullSql.Intercept: `endTime - startTime` is an unbounded integer; the 64-bit wrap-around of Java `long` subtraction is not modelled.
- Header names are compared exactly. The servlet container's case-insensitive header lookup is not modelled.
- The filters model `copyBodyToResponse` as delivering the buffer. Its own IOException is not modelled, and neither is an exception from `System.out`.
- `CheckUtils.isEmpty` is not part of the source files; it is taken to be true exactly for null and the empty string.
- The request body the filters print is the wrapper's cache at the time of `logRequest`. It is an input; how much of the body the wrapper has cached by then is not modelled.
- Printing and logging are recorded as event lists; the text layout of each line is not modelled.
- Characters are Dafny `char`s. Case-insensitive matching of `charset` folds ASCII letters only, as Java's `CASE_INSENSITIVE` does without `UNICODE_CASE`.
- Concurrency between requests: the core shares no mutable state.
- `Integer.parseInt` is modelled on ASCII digits only. Java accepts any Unicode decimal digit (`Character.digit`), so a status text such as Arabic-Indic `٤٠٤` gives 404 in Java and NumberFormatException in the model.
- The coupling of a servlet response's content type and character encoding is not modelled. The chain may set either one, but a `;charset=` in the content type it sets does not change `getCharacterEncoding`, and an encoding set on its own does not show up in `getContentType`.

## Findings

| source | as written | input that shows it | evidently intended | confidence | as-written member | corrected member |
|---|---|---|---|---|---|---|
| ContentCachingFilter.java:156-157 | the query string is appended only when `CheckUtils.isEmpty(queryString)` holds | a request for `http://h/p?a=1` gives `http://h/p`; a request without a query string throws NullPointerException from `URLDecoder.decode(null, UTF_8)`, which ends `doFilterInternal` before the chain runs (`CachingFilter.AsWrittenNoQueryStopsBeforeChain`) | append "?" + the decoded query when the query string is not empty | not executed | CachingFilter.GetFullUrlAsWritten | CachingFilter.GetFullUrl |
