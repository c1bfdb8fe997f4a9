# Request handler of the demo HTTP server — a Dafny model

The example server in `examples/server/server.js` answers every request,
on both its HTTP/1.1 and its HTTP/2 listener, with one shared handler. The
handler collects the request body chunk by chunk. When the body is complete it
does one of two things:

* **Echo.** A non-empty body is passed back to `res.end` unchanged. Its Content-Type is the
  request's `Content-Type` value, or `""` when that header is absent.
* **Negotiation.** For an empty body, the handler picks one of four canned
  payloads from a fixed content catalog: json, xml, html or text. The choice
  is case-sensitive substring containment (`includes`) of a media type in the
  `Accept` or the `Content-Type` value.

Every response the handler writes has status 200. It also carries an
`X-Request-Info` record: the request's protocol version, method, URL and
headers, and the entity the handler passes to `res.end`. The model assumes the serialized
record is a valid header value (see "## Left out").

The model has four modules:

* `Catalog` (`Catalog.dfy`): the formats, their canonical media types and
  their payloads.
* `Matching` (`Matching.dfy`): `includes` as a recursive scan, proved equal to
  "the pattern occurs at some index".
* `Negotiation` (`Negotiation.dfy`): format selection, characterised as
  "the highest-priority format that matches, else text".
* `Handler` (`Handler.dfy`): `Respond` is the pure decision once the body is
  complete. `HandleRequest` is the handler itself: a loop appends the chunks in
  arrival order, then computes `Respond` of the result.

The handler does not consult `Accept` before `Content-Type`. For each media
type X in turn it tests `accept.includes(X) || contentType.includes(X)`.
Priority therefore runs by media type (json, then xml, then html, then text),
and the two headers are interchangeable: see `Negotiation.SelectSymmetric`
and `Negotiation.PrecedenceByMediaType`.

## Model

| member | source | states |
|---|---|---|
| `Catalog.MediaTypeInjective` | examples/server/server.js:35-46 | The four media types the handler assigns are canonical and pairwise distinct, so a content type names exactly one catalog format. |
| `Catalog.JsonPayloadText` | examples/server/server.js:7-12 | The catalog's json object `{ message: "This is a dummy JSON response" }` is sent as the serialized text `{"message":"This is a dummy JSON response"}` (line 37). |
| `Matching.Includes` | examples/server/server.js:35-41 | Matching is true exactly when the media type occurs as a contiguous substring of the header value at some index. |
| `Matching.IncludesInContext` | examples/server/server.js:35-41 | Any value with the media type somewhere inside it matches, whatever text precedes or follows it. |
| `Matching.IncludesReflexive` | examples/server/server.js:35-41 | Every value contains the empty pattern, and every value contains itself. |
| `Matching.IncludesNeedsLength` | examples/server/server.js:35-41 | A value shorter than the media type never matches it. |
| `Matching.CaseSensitive` | examples/server/server.js:35-41 | Matching is case-sensitive: `Application/JSON` does not contain `application/json`. |
| `Negotiation.Select` | examples/server/server.js:34-47 | The selected format is a match (or the text fallback), and no format of higher priority (json > xml > html > text) matches in either header. |
| `Negotiation.SelectUnique` | examples/server/server.js:34-47 | Those two properties determine the selection: any format that has them is the selected one. |
| `Negotiation.SelectSymmetric` | examples/server/server.js:35-43 | Swapping the Accept and Content-Type values never changes the selected format, because priority is by media type and not by header. |
| `Negotiation.SelectJsonIff` | examples/server/server.js:35-37 | JSON is selected if and only if either header contains `application/json`. |
| `Negotiation.SelectXmlIff` | examples/server/server.js:38-40 | XML is selected if and only if neither header contains `application/json` and one of them contains `application/xml`. |
| `Negotiation.SelectTextIff` | examples/server/server.js:44-46 | Text is selected if and only if neither header contains any of the three recognised media types. |
| `Negotiation.NoHeadersSelectsText` | examples/server/server.js:25-46 | Two empty header values (both headers absent) select text. |
| `Negotiation.PrecedenceByMediaType` | examples/server/server.js:35-43 | `Accept: text/html` with `Content-Type: application/json` selects json; with `Content-Type: application/xml` it selects xml. |
| `Negotiation.LooseMatchingToken` | examples/server/server.js:35-37 | An Accept value `application/jsonx` still selects json. |
| `Negotiation.LooseMatchingList` | examples/server/server.js:38-40 | An Accept value `foo, application/xml;q=0.1` selects xml. |
| `Handler.Respond` | examples/server/server.js:25-62 | Status is 200 and the diagnostic record repeats the request's version, method, URL and headers, with the entity the handler passes to `res.end` as its body. A non-empty body is echoed under the request Content-Type. For an empty body, the content type is canonical, the body is that format's catalog payload, and the format is the one negotiation selects. |
| `Handler.HandleRequest` | examples/server/server.js:14-63 | The response is the one for the in-order concatenation of all received chunks. |
| `Handler.ConcatEmptyIff` | examples/server/server.js:15-19 | The accumulated body is empty exactly when every chunk is empty. |
| `Handler.ConcatAppend` | examples/server/server.js:15-19 | Receiving chunk sequence a and then b accumulates the body of a followed by the body of b. |
| `Handler.ConcatSingle` | examples/server/server.js:15-19 | A body sent as one chunk is received unchanged. |
| `Handler.EchoBody` | examples/server/server.js:25-33 | A non-empty body is returned unchanged as decoded text. The content type is the request's Content-Type when present and `""` when absent. |
| `Handler.EchoIgnoresAccept` | examples/server/server.js:25-33 | With a non-empty body, changing or adding the Accept header changes neither the response body nor its content type. |
| `Handler.NegotiatedIsCatalogEntry` | examples/server/server.js:34-48 | With an empty body, the response is exactly one catalog entry, sent under that entry's own media type. |
| `Handler.JsonWhenEitherHeaderAsks` | examples/server/server.js:35-37 | With an empty body, if either header contains `application/json`, the response is `application/json` with the JSON payload text. |
| `Handler.TextWhenNothingMatches` | examples/server/server.js:44-46 | With an empty body and no recognised media type in either header, the response is `text/plain` with the text payload. |
| `Handler.ProtocolTransparency` | examples/server/server.js:50-62 | Two messages with the same body and the same Accept and Content-Type values get the same status, content type and entity. This holds whatever else differs between them: protocol version, method, URL, or other headers such as the HTTP/2 pseudo-headers. Their diagnostic records differ only in the message fields each repeats. |
| `Handler.ChunkedEcho` | examples/server/server.js:15-33 | If some chunk is non-empty, the concatenated chunks are echoed. If every chunk is empty, the response is the negotiated one for an empty body. |
| `Handler.ScenarioJsonViaAccept` | examples/server/server.js:35-37 | Empty body with `Accept: application/json`, whatever the other headers, gives the JSON payload under `application/json`. |
| `Handler.ScenarioXmlViaContentType` | examples/server/server.js:38-40 | Empty body, no Accept and `Content-Type: application/xml` gives the XML payload under `application/xml`. |
| `Handler.ScenarioHtmlViaAccept` | examples/server/server.js:41-43 | Empty body with `Accept: text/html` and no Content-Type gives the HTML payload of line 10 under `text/html`. |
| `Handler.ScenarioNoHeaders` | examples/server/server.js:25-46 | Empty body with neither Accept nor Content-Type gives the text payload under `text/plain`. |
| `Handler.ScenarioEchoOverridesNegotiation` | examples/server/server.js:31-33 | Body `hello` with `Accept: application/json` and `Content-Type: text/plain` is echoed as `hello` under `text/plain`. |

## Left out

- The HTTP/1.1 and HTTP/2 listeners, port numbers (3000 and 3001), binding and TLS setup (server.js:66-81): network plumbing. Both listeners call the same handler, which is what the model captures.
- Reading `key.pem` and `cert.pem` (server.js:73-74): file I/O.
- The `console.log` lines (server.js:23, 69, 80): logging side effects with no effect on the response.
- The `data`/`end` events as an asynchronous mechanism (server.js:17, 21). `HandleRequest` models only their effect: every chunk is appended in order, then the response is computed once.
- `chunk.toString()` (server.js:18) and the re-encoding by `res.end` (server.js:62). Chunks are modelled as already-decoded strings, so the echo is exact on text, not on bytes. Decoding replaces every invalid UTF-8 sequence with U+FFFD. So a body that is not valid UTF-8 (the single byte 0xFF, any binary upload) does not come back byte for byte. Neither does a UTF-8 character split across two chunks, which the source decodes chunk by chunk. Over HTTP/1.1 such a U+FFFD also reaches `X-Request-Info`, with the consequence described for `Handler.Respond` below.
- `JSON.stringify` of the diagnostic record (server.js:60). The record is kept as a structured value. The one fixed serialization of the catalog's json object is the constant `Catalog.Payload(Json)`, and `Catalog.JsonMessageObject` does no escaping.
- `res.end` (server.js:62) sends no entity for a HEAD request. The model's `Response.body` and the record's `body` are the entity the handler passes, not what the client receives.
- `res.writeHead`/`res.end` wire serialization (server.js:58-62). Only status, Content-Type, the record and the entity are modelled.
- Header parsing by the platform: lower-casing header names and collapsing duplicate headers. The model takes the resulting name-to-string map as given. It cannot hold the array the platform always gives for `set-cookie`, which the diagnostic record's `headers` (server.js:54) would carry as an array.
- HTTP/2 pseudo-headers: over HTTP/2 the platform also puts `:method`, `:path`, `:scheme` and `:authority` into `req.headers`. The model does not derive either listener's header map from a client request. `Handler.ProtocolTransparency` therefore assumes only that both maps give the same Accept and Content-Type values.
- Handler.Respond: promises a status-200 response for every body. It assumes the serialized `X-Request-Info` record is a valid header value. `JSON.stringify` (server.js:60) leaves DEL and characters above U+00FF unescaped, for example `€` or CJK text in an echoed body. On the HTTP/1.1 listener, `res.writeHead` (server.js:58) then throws on such a value (the platform's invalid-header-character check). The throw is inside the `end` callback and nothing catches it, so the process ends instead of answering. What the HTTP/2 listener's compatibility layer does with such a value is not modelled either. The model does not capture this exception.
