/** The content catalog: the four canned response formats, the media type
    each is served under and the payload text each one sends. */
module Catalog {

  /** The response formats the server can synthesize when no body is echoed. */
  datatype Format = Json | Xml | Html | Text

  /** The canonical media type a format is served under. */
  function MediaType(f: Format): string
  {
    match f
    case Json => "application/json"
    case Xml => "application/xml"
    case Html => "text/html"
    case Text => "text/plain"
  }

  /** The single field of the catalog's JSON object. */
  const JsonMessage: string := "This is a dummy JSON response"

  /** The JSON text of an object with one string member "message", for a
      message that needs no escaping (no quote, backslash or control character). */
  function JsonMessageObject(message: string): string
  {
    "{\"message\":\"" + message + "\"}"
  }

  /** The payload sent on the wire for a format: the JSON entry in its
      serialized form, the other entries verbatim. */
  function Payload(f: Format): string
  {
    match f
    case Json => JsonMessageObject(JsonMessage)
    case Xml => "<response><message>This is a dummy XML response</message></response>"
    case Html => "<html><body><h1>This is a dummy HTML response</h1></body></html>"
    case Text => "This is a dummy text response"
  }

  /** The inverse of MediaType on the four canonical strings. */
  function FormatOf(contentType: string): (r: Format)
    requires IsCanonical(contentType)
    ensures MediaType(r) == contentType
  {
    if contentType == "application/json" then Json
    else if contentType == "application/xml" then Xml
    else if contentType == "text/html" then Html
    else Text
  }

  /** One of the four media types the catalog is served under. */
  predicate IsCanonical(contentType: string)
  {
    contentType in {"application/json", "application/xml", "text/html", "text/plain"}
  }

  /** Every format's media type is canonical, and distinct formats have
      distinct media types, so a canonical content type names one format. */
  lemma MediaTypeInjective(f: Format, g: Format)
    ensures IsCanonical(MediaType(f))
    ensures FormatOf(MediaType(f)) == f
    ensures MediaType(f) == MediaType(g) ==> f == g
  {
  }

  /** The JSON payload is exactly the text JSON.stringify gives for the
      catalog object { message: "This is a dummy JSON response" }. */
  lemma JsonPayloadText()
    ensures Payload(Json) == "{\"message\":\"This is a dummy JSON response\"}"
  {
  }
}
