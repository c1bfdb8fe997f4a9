/** The request handler: accumulate the request body chunk by chunk, then
    either echo the body or answer with a negotiated catalog payload, and
    attach a diagnostic record of the request. */
module Handler {
  import opened Catalog
  import opened Matching
  import opened Negotiation

  /** A received request without its body: protocol version, method, URL and
      the header mapping, keyed by lower-case header name. */
  datatype IncomingMessage = IncomingMessage(
    httpVersion: string,
    requestMethod: string,
    url: string,
    headers: map<string, string>)

  /** The diagnostic record sent in the X-Request-Info header. */
  datatype RequestInfo = RequestInfo(
    httpVersion: string,
    requestMethod: string,
    url: string,
    headers: map<string, string>,
    body: string)

  /** What the handler writes: status, the Content-Type header, the
      X-Request-Info record, and the entity body. */
  datatype Response = Response(
    status: int,
    contentType: string,
    requestInfo: RequestInfo,
    body: string)

  /** The status of every response. */
  const OkStatus: int := 200

  /** A header's value, or the empty string when the header is absent
      (an absent header and an empty value both give ""). */
  function HeaderOrEmpty(headers: map<string, string>, name: string): string
  {
    if name in headers then headers[name] else ""
  }

  /** The value of the Content-Type header the handler consults. */
  function RequestContentType(msg: IncomingMessage): string
  {
    HeaderOrEmpty(msg.headers, "content-type")
  }

  /** The value of the Accept header the handler consults. */
  function RequestAccept(msg: IncomingMessage): string
  {
    HeaderOrEmpty(msg.headers, "accept")
  }

  /** The in-order concatenation of the received body chunks. */
  function Concat(chunks: seq<string>): string
  {
    if chunks == [] then "" else Concat(chunks[..|chunks| - 1]) + chunks[|chunks| - 1]
  }

  /** The response to a request whose body has been fully received: a
      non-empty body is echoed under the request's Content-Type; an empty one
      is answered with the selected format's media type and payload. The
      diagnostic record always repeats the request and the entity sent. The
      record is taken to serialize to a valid header value; the exception the
      platform raises when it does not is not modelled. */
  function Respond(msg: IncomingMessage, body: string): (resp: Response)
    ensures resp.status == OkStatus
    ensures resp.requestInfo == RequestInfo(msg.httpVersion, msg.requestMethod, msg.url, msg.headers, resp.body)
    ensures body != "" ==> resp.body == body && resp.contentType == RequestContentType(msg)
    ensures body == "" ==> IsCanonical(resp.contentType) && resp.body == Payload(FormatOf(resp.contentType))
    ensures body == "" ==> FormatOf(resp.contentType) == Select(RequestAccept(msg), RequestContentType(msg))
  {
    var contentType := RequestContentType(msg);
    var accept := RequestAccept(msg);
    if body != "" then
      Reply(msg, contentType, body)
    else
      var f := Select(accept, contentType);
      MediaTypeInjective(f, f);
      Reply(msg, MediaType(f), Payload(f))
  }

  /** A 200 response carrying the given content type and entity, with the
      diagnostic record of the request and that entity. */
  function Reply(msg: IncomingMessage, contentType: string, entity: string): Response
  {
    Response(OkStatus, contentType,
             RequestInfo(msg.httpVersion, msg.requestMethod, msg.url, msg.headers, entity),
             entity)
  }

  /** The handler: appends each received chunk to the body in arrival order,
      then, once the body is complete, computes the response to it. */
  method HandleRequest(msg: IncomingMessage, chunks: seq<string>) returns (resp: Response)
    ensures resp == Respond(msg, Concat(chunks))
  {
    var body := "";
    var i := 0;
    while i < |chunks|
      invariant 0 <= i <= |chunks|
      invariant body == Concat(chunks[..i])
    {
      assert chunks[..i + 1][..i] == chunks[..i];
      body := body + chunks[i];
      i := i + 1;
    }
    assert chunks[..|chunks|] == chunks;
    resp := Respond(msg, body);
  }

  /** The accumulated body is empty exactly when every chunk is empty. */
  lemma {:induction false} ConcatEmptyIff(chunks: seq<string>)
    ensures Concat(chunks) == "" <==> forall k :: 0 <= k < |chunks| ==> chunks[k] == ""
  {
    if chunks != [] {
      var init := chunks[..|chunks| - 1];
      ConcatEmptyIff(init);
      assert forall k :: 0 <= k < |init| ==> init[k] == chunks[k];
    }
  }

  /** Accumulation is associative over arrival: receiving a and then b gives
      the body of a followed by the body of b. */
  lemma {:induction false} ConcatAppend(a: seq<string>, b: seq<string>)
    ensures Concat(a + b) == Concat(a) + Concat(b)
    decreases |b|
  {
    if b == [] {
      assert a + b == a;
    } else {
      var bInit := b[..|b| - 1];
      assert (a + b)[..|a + b| - 1] == a + bInit;
      ConcatAppend(a, bInit);
    }
  }

  /** A single chunk is received unchanged. */
  lemma ConcatSingle(chunk: string)
    ensures Concat([chunk]) == chunk
  {
  }

  /** Echo: a non-empty body comes back unchanged, under the request's
      Content-Type (or "" when that header is absent). */
  lemma EchoBody(msg: IncomingMessage, body: string)
    requires body != ""
    ensures Respond(msg, body).body == body
    ensures "content-type" in msg.headers ==> Respond(msg, body).contentType == msg.headers["content-type"]
    ensures "content-type" !in msg.headers ==> Respond(msg, body).contentType == ""
  {
  }

  /** On the echo path the Accept header is ignored entirely: two requests
      that differ only in their Accept header get the same response. */
  lemma EchoIgnoresAccept(msg: IncomingMessage, body: string, accept: string)
    requires body != ""
    ensures var msg' := msg.(headers := msg.headers["accept" := accept]);
      Respond(msg', body).body == Respond(msg, body).body &&
      Respond(msg', body).contentType == Respond(msg, body).contentType
  {
  }

  /** Negotiation is total: with an empty body exactly one catalog entry is
      sent, under its own canonical media type. */
  lemma NegotiatedIsCatalogEntry(msg: IncomingMessage)
    ensures exists f :: Respond(msg, "").contentType == MediaType(f) && Respond(msg, "").body == Payload(f)
    ensures forall f :: Respond(msg, "").contentType == MediaType(f) ==> Respond(msg, "").body == Payload(f)
  {
    var resp := Respond(msg, "");
    var f := FormatOf(resp.contentType);
    assert resp.contentType == MediaType(f) && resp.body == Payload(f);
    forall g | resp.contentType == MediaType(g) ensures resp.body == Payload(g) {
      MediaTypeInjective(f, g);
    }
  }

  /** JSON is sent for an empty body when either header contains application/json. */
  lemma JsonWhenEitherHeaderAsks(msg: IncomingMessage)
    requires Includes(RequestAccept(msg), "application/json") || Includes(RequestContentType(msg), "application/json")
    ensures Respond(msg, "").contentType == "application/json"
    ensures Respond(msg, "").body == "{\"message\":\"This is a dummy JSON response\"}"
  {
    assert Select(RequestAccept(msg), RequestContentType(msg)) == Json;
    JsonPayloadText();
  }

  /** With an empty body and no recognised media type in either header, the
      text fallback is sent. */
  lemma TextWhenNothingMatches(msg: IncomingMessage)
    requires forall f :: !Matches(f, RequestAccept(msg), RequestContentType(msg))
    ensures Respond(msg, "").contentType == "text/plain"
    ensures Respond(msg, "").body == "This is a dummy text response"
  {
  }

  /** The same body over either listener gets the same status, content type
      and entity whenever the two messages carry the same Accept and
      Content-Type values, whatever else differs (the protocol version, or the
      HTTP/2 pseudo-headers in the header map); the diagnostic records then
      differ only in the message fields each one repeats. */
  lemma ProtocolTransparency(msg: IncomingMessage, msg': IncomingMessage, body: string)
    requires RequestAccept(msg') == RequestAccept(msg)
    requires RequestContentType(msg') == RequestContentType(msg)
    ensures var resp := Respond(msg, body);
      var resp' := Respond(msg', body);
      resp'.status == resp.status && resp'.contentType == resp.contentType && resp'.body == resp.body &&
      resp'.requestInfo == resp.requestInfo.(httpVersion := msg'.httpVersion, requestMethod := msg'.requestMethod,
                                             url := msg'.url, headers := msg'.headers)
  {
  }

  /** The handler's entity is the in-order concatenation of the chunks; it is
      echoed exactly when some chunk is non-empty, and otherwise negotiated. */
  lemma {:induction false} ChunkedEcho(msg: IncomingMessage, chunks: seq<string>)
    ensures (exists k :: 0 <= k < |chunks| && chunks[k] != "") ==>
      Respond(msg, Concat(chunks)).body == Concat(chunks)
    ensures (forall k :: 0 <= k < |chunks| ==> chunks[k] == "") ==>
      Respond(msg, Concat(chunks)) == Respond(msg, "")
  {
    ConcatEmptyIff(chunks);
  }

  /** Scenario: empty body, Accept: application/json (any other headers). */
  lemma ScenarioJsonViaAccept(msg: IncomingMessage)
    requires RequestAccept(msg) == "application/json"
    ensures Respond(msg, "").contentType == "application/json"
    ensures Respond(msg, "").body == "{\"message\":\"This is a dummy JSON response\"}"
  {
    IncludesReflexive("application/json");
    JsonWhenEitherHeaderAsks(msg);
  }

  /** Scenario: empty body, no Accept, Content-Type: application/xml. */
  lemma ScenarioXmlViaContentType(msg: IncomingMessage)
    requires RequestAccept(msg) == "" && RequestContentType(msg) == "application/xml"
    ensures Respond(msg, "").contentType == "application/xml"
    ensures Respond(msg, "").body == "<response><message>This is a dummy XML response</message></response>"
  {
  }

  /** Scenario: empty body, Accept: text/html, no Content-Type. */
  lemma ScenarioHtmlViaAccept(msg: IncomingMessage)
    requires RequestAccept(msg) == "text/html" && RequestContentType(msg) == ""
    ensures Respond(msg, "").contentType == "text/html"
    ensures Respond(msg, "").body == "<html><body><h1>This is a dummy HTML response</h1></body></html>"
  {
    IncludesReflexive("text/html");
  }

  /** Scenario: empty body and neither Accept nor Content-Type present. */
  lemma ScenarioNoHeaders(msg: IncomingMessage)
    requires RequestAccept(msg) == "" && RequestContentType(msg) == ""
    ensures Respond(msg, "").contentType == "text/plain"
    ensures Respond(msg, "").body == "This is a dummy text response"
  {
  }

  /** Scenario: body "hello" with Accept: application/json and
      Content-Type: text/plain is echoed as text/plain. */
  lemma ScenarioEchoOverridesNegotiation(msg: IncomingMessage)
    requires RequestAccept(msg) == "application/json" && RequestContentType(msg) == "text/plain"
    ensures Respond(msg, "hello").contentType == "text/plain"
    ensures Respond(msg, "hello").body == "hello"
  {
  }
}
