/** `RequestHeaderMatchesMediaTypeAttribute`: an action constraint that selects an action when
    one request header, as a whole, equals one of a list of media types, ignoring case. The
    Accept header is not parsed as section 5.3.2 of RFC 7231 describes: a list of media ranges
    or a q-value makes the whole value differ from every media type. */
module RequestHeaderMatchesMediaType {
  import opened Wrappers
  import opened Text

  /** One request header and its values (`StringValues`). */
  datatype HeaderEntry = HeaderEntry(name: string, values: seq<string>)

  /** `IHeaderDictionary`: header names compare ignoring case. */
  type HeaderDictionary = seq<HeaderEntry>

  predicate ContainsHeader(headers: HeaderDictionary, name: string) {
    exists i | 0 <= i < |headers| :: EqualsIgnoreCase(headers[i].name, name)
  }

  /** `requestHeaders[name].ToString()`: the header's values joined by commas, or nothing when
      the header is absent. */
  function HeaderValue(headers: HeaderDictionary, name: string): (r: Option<string>)
    ensures r.None? <==> !ContainsHeader(headers, name)
    ensures r.Some? ==> exists i | 0 <= i < |headers| ::
      EqualsIgnoreCase(headers[i].name, name) && r.value == Join(headers[i].values, ',')
  {
    if headers == [] then None
    else if EqualsIgnoreCase(headers[0].name, name) then Some(Join(headers[0].values, ','))
    else
      var r := HeaderValue(headers[1..], name);
      assert forall i | 1 <= i < |headers| :: headers[i] == headers[1..][i - 1];
      r
  }

  /** `value` is one of the media types, ignoring case. */
  predicate MatchesOneOf(value: string, mediaTypes: seq<string>) {
    exists i | 0 <= i < |mediaTypes| :: EqualsIgnoreCase(value, mediaTypes[i])
  }

  /** What `Accept` decides: the header is present and its value matches a media type. */
  predicate Accepts(requestHeaderToMatch: string, mediaTypes: seq<string>, headers: HeaderDictionary) {
    match HeaderValue(headers, requestHeaderToMatch)
    case None => false
    case Some(value) => MatchesOneOf(value, mediaTypes)
  }

  class RequestHeaderMatchesMediaTypeAttribute {
    const requestHeaderToMatch: string
    const mediaTypes: seq<string>

    constructor(requestHeaderToMatch: string, mediaTypes: seq<string>)
      ensures this.requestHeaderToMatch == requestHeaderToMatch && this.mediaTypes == mediaTypes
    {
      this.requestHeaderToMatch := requestHeaderToMatch;
      this.mediaTypes := mediaTypes;
    }

    /** The constraint's order among action constraints. */
    function Order(): (r: int)
      ensures r == 0
    {
      0
    }

    /** False when the header is missing; otherwise true at the first media type the header's
        value equals, ignoring case, and false when none does. */
    method Accept(headers: HeaderDictionary) returns (r: bool)
      ensures r <==> Accepts(requestHeaderToMatch, mediaTypes, headers)
    {
      var requestHeader := HeaderValue(headers, requestHeaderToMatch);
      if requestHeader.None? {
        return false;
      }
      var i := 0;
      while i < |mediaTypes|
        invariant 0 <= i <= |mediaTypes|
        invariant forall j | 0 <= j < i :: !EqualsIgnoreCase(requestHeader.value, mediaTypes[j])
      {
        var mediaTypeMatches := EqualsIgnoreCase(requestHeader.value, mediaTypes[i]);
        if mediaTypeMatches {
          return true;
        }
        i := i + 1;
      }
      return false;
    }
  }

  /** A request without the header is never accepted. */
  lemma AbsentHeaderRejects(name: string, mediaTypes: seq<string>, headers: HeaderDictionary)
    requires forall i | 0 <= i < |headers| :: !EqualsIgnoreCase(headers[i].name, name)
    ensures !Accepts(name, mediaTypes, headers)
  {
  }

  /** With no media types nothing is accepted. */
  lemma NoMediaTypesRejects(name: string, headers: HeaderDictionary)
    ensures !Accepts(name, [], headers)
  {
  }

  /** Only the set of media types matters, not their order or repetition. */
  lemma MediaTypeOrderIrrelevant(name: string, m1: seq<string>, m2: seq<string>, headers: HeaderDictionary)
    requires forall t :: t in m1 <==> t in m2
    ensures Accepts(name, m1, headers) <==> Accepts(name, m2, headers)
  {
    var value := HeaderValue(headers, name);
    if value.Some? {
      if MatchesOneOf(value.value, m1) {
        var i :| 0 <= i < |m1| && EqualsIgnoreCase(value.value, m1[i]);
        assert m1[i] in m2;
      }
      if MatchesOneOf(value.value, m2) {
        var i :| 0 <= i < |m2| && EqualsIgnoreCase(value.value, m2[i]);
        assert m2[i] in m1;
      }
    }
  }

  /** The match is on the whole value: a value that only contains a media type, with anything
      before or after it, does not match that media type. */
  lemma WholeValueOnly(before: string, mediaType: string, after: string)
    requires before + after != []
    ensures !EqualsIgnoreCase(before + mediaType + after, mediaType)
  {
    assert |Fold(before + mediaType + after)| != |Fold(mediaType)|;
  }

  /** Letter case is ignored: a value equal to a media type up to case is accepted. */
  lemma CaseIgnored(name: string, value: string, mediaTypes: seq<string>, i: nat)
    requires i < |mediaTypes| && Fold(value) == Fold(mediaTypes[i])
    ensures Accepts(name, mediaTypes, [HeaderEntry(name, [value])])
  {
    assert EqualsIgnoreCase(name, name);
    assert Join([value], ',') == value;
  }
}
