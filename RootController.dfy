/** `RootController`: the API's entry point, which lists the top-level links when the client
    asks for the HATEOAS media type. */
module RootController {
  import opened Wrappers
  import opened Text
  import opened Mvc
  import opened RequestHeaderMatchesMediaType

  const HateoasMediaType: string := "application/vnd.marvin.hateoas+json"

  /** `GetRoot` answers with links only for exactly the HATEOAS media type: the comparison is
      ordinal `==`, so letter case matters and a missing Accept header never qualifies. */
  predicate ServesLinks(mediaType: Option<string>) {
    mediaType == Some(HateoasMediaType)
  }

  /** The root document: a link to itself, to the author collection and to author creation,
      in that order, each built from its route with no route values. */
  function RootLinks(urlHelper: UrlHelper): (r: seq<LinkDto>)
    ensures |r| == 3
    ensures r[0] == LinkDto(urlHelper("GetRoot", EmptyRouteValues), "self", "GET")
    ensures r[1] == LinkDto(urlHelper("GetAuthors", EmptyRouteValues), "authors", "GET")
    ensures r[2] == LinkDto(urlHelper("CreateAuthor", EmptyRouteValues), "create_author", "POST")
  {
    [ LinkDto(urlHelper("GetRoot", EmptyRouteValues), "self", "GET"),
      LinkDto(urlHelper("GetAuthors", EmptyRouteValues), "authors", "GET"),
      LinkDto(urlHelper("CreateAuthor", EmptyRouteValues), "create_author", "POST") ]
  }

  /** Capitalizing the first letter of a string changes it but not its case-folded form. */
  lemma CapitalizedFold(s: string)
    requires s != [] && 'a' <= s[0] <= 'z'
    ensures [UpperChar(s[0])] + s[1..] != s
    ensures Fold([UpperChar(s[0])] + s[1..]) == Fold(s)
  {
    var c := [UpperChar(s[0])] + s[1..];
    assert c[0] != s[0];
    assert forall i | 0 <= i < |s| :: UpperChar(c[i]) == UpperChar(s[i]);
  }

  class RootController {
    const urlHelper: UrlHelper

    constructor(urlHelper: UrlHelper)
      ensures this.urlHelper == urlHelper
    {
      this.urlHelper := urlHelper;
    }

    /** The root action: the three root links for the HATEOAS media type, no content for any
        other Accept value or none. */
    method GetRoot(mediaType: Option<string>) returns (r: ActionResult<seq<LinkDto>>)
      ensures ServesLinks(mediaType) ==> r == Ok(RootLinks(urlHelper))
      ensures !ServesLinks(mediaType) ==> r == NoContent
    {
      if mediaType == Some(HateoasMediaType) {
        var links: seq<LinkDto> := [];
        links := links + [LinkDto(urlHelper("GetRoot", EmptyRouteValues), "self", "GET")];
        links := links + [LinkDto(urlHelper("GetAuthors", EmptyRouteValues), "authors", "GET")];
        links := links + [LinkDto(urlHelper("CreateAuthor", EmptyRouteValues), "create_author", "POST")];
        assert links == RootLinks(urlHelper);
        return Ok(links);
      }
      return NoContent;
    }
  }

  /** The root action and the media-type constraint disagree on letter case: an Accept header
      that differs from the HATEOAS media type only in case is accepted by a constraint on that
      media type, yet the root action answers it with no content. */
  lemma CaseSensitiveUnlikeConstraint(mediaType: string)
    requires EqualsIgnoreCase(mediaType, HateoasMediaType) && mediaType != HateoasMediaType
    ensures Accepts("Accept", [HateoasMediaType], [HeaderEntry("Accept", [mediaType])])
    ensures !ServesLinks(Some(mediaType))
  {
    CaseIgnored("Accept", mediaType, [HateoasMediaType], 0);
  }

  /** Such an Accept header exists: the HATEOAS media type with a capital first letter. */
  lemma CaseVariantExists()
    ensures var m := [UpperChar(HateoasMediaType[0])] + HateoasMediaType[1..];
      EqualsIgnoreCase(m, HateoasMediaType) && m != HateoasMediaType
  {
    CapitalizedFold(HateoasMediaType);
  }
}
