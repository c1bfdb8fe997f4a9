/** Format negotiation for a request without a body: the first recognised
    media type, in catalog priority order, that either the Accept or the
    Content-Type value contains. */
module Negotiation {
  import opened Catalog
  import opened Matching

  /** Priority of a format: json before xml before html; text is the fallback. */
  function Rank(f: Format): nat
  {
    match f
    case Json => 0
    case Xml => 1
    case Html => 2
    case Text => 3
  }

  /** A recognised (non-fallback) format whose media type occurs in either header value. */
  predicate Matches(f: Format, accept: string, contentType: string)
  {
    f != Text && (Includes(accept, MediaType(f)) || Includes(contentType, MediaType(f)))
  }

  /** The format chosen for an empty body: the selected format matches (or is
      the text fallback) and no format of higher priority matches. */
  function Select(accept: string, contentType: string): (f: Format)
    ensures f == Text || Matches(f, accept, contentType)
    ensures forall g :: Rank(g) < Rank(f) ==> !Matches(g, accept, contentType)
  {
    if Includes(accept, "application/json") || Includes(contentType, "application/json") then Json
    else if Includes(accept, "application/xml") || Includes(contentType, "application/xml") then Xml
    else if Includes(accept, "text/html") || Includes(contentType, "text/html") then Html
    else Text
  }

  /** The two properties of Select determine its result: any format that is a
      match (or the fallback) with no higher-priority match is the selected one. */
  lemma SelectUnique(accept: string, contentType: string, g: Format)
    requires g == Text || Matches(g, accept, contentType)
    requires forall h :: Rank(h) < Rank(g) ==> !Matches(h, accept, contentType)
    ensures g == Select(accept, contentType)
  {
  }

  /** Priority runs by media type, not by header: swapping the Accept and
      Content-Type values never changes the selected format. */
  lemma SelectSymmetric(accept: string, contentType: string)
    ensures Select(accept, contentType) == Select(contentType, accept)
  {
  }

  /** JSON is chosen exactly when either header contains application/json. */
  lemma SelectJsonIff(accept: string, contentType: string)
    ensures Select(accept, contentType) == Json <==>
      Includes(accept, "application/json") || Includes(contentType, "application/json")
  {
  }

  /** XML is chosen exactly when no header contains application/json and
      one of them contains application/xml. */
  lemma SelectXmlIff(accept: string, contentType: string)
    ensures Select(accept, contentType) == Xml <==>
      !Matches(Json, accept, contentType) && Matches(Xml, accept, contentType)
  {
  }

  /** The text fallback is chosen exactly when neither header contains any of
      the three recognised media types. */
  lemma SelectTextIff(accept: string, contentType: string)
    ensures Select(accept, contentType) == Text <==>
      forall f :: !Matches(f, accept, contentType)
  {
  }

  /** Both headers absent (each defaults to the empty string) selects text. */
  lemma NoHeadersSelectsText()
    ensures Select("", "") == Text
  {
  }

  /** A json match in Content-Type beats an html match in Accept, and an xml
      match in Content-Type beats an html match in Accept. */
  lemma PrecedenceByMediaType()
    ensures Select("text/html", "application/json") == Json
    ensures Select("text/html", "application/xml") == Xml
  {
  }

  /** Loose matching: a longer token still matches. */
  lemma LooseMatchingToken()
    ensures Select("application/jsonx", "") == Json
  {
  }

  /** A pattern whose k-th character appears nowhere in s does not occur in s. */
  lemma NoOccurrenceWithoutChar(s: string, pat: string, k: nat)
    requires k < |pat| && pat[k] !in s
    ensures !Includes(s, pat)
  {
  }

  /** Loose matching: an entry with parameters inside a list still matches
      (the Accept value is "foo, application/xml;q=0.1"). */
  lemma LooseMatchingList()
    ensures Select("foo, " + "application/xml" + ";q=0.1", "") == Xml
  {
    var s := "foo, " + "application/xml" + ";q=0.1";
    IncludesInContext("foo, ", "application/xml", ";q=0.1");
    assert !Includes(s, "application/json") by {
      assert 'j' !in "foo, " && 'j' !in "application/xml" && 'j' !in ";q=0.1";
      NoOccurrenceWithoutChar(s, "application/json", 12);
    }
  }
}
