/** `AuthorsController`: the two read actions on authors and the links between pages of the
    author collection. Mapping to DTOs and field shaping are not modelled, so a successful
    action carries the author entities it would shape. */
module AuthorsController {
  import opened Wrappers
  import opened Int32Math
  import opened Entities
  import opened PagedLists
  import opened ResourceParameters
  import opened TypeHelperService
  import opened LibraryRepository
  import opened Mvc

  /** Which page of the author collection a link points at. */
  datatype ResourceUriType = PreviousPage | NextPage | Current

  /** The page number a link of the given type carries, computed in unchecked 32-bit arithmetic:
      one less for the previous page, one more for the next, unchanged otherwise. */
  function LinkedPageNumber(pageNumber: Int32, resourceType: ResourceUriType): (r: Int32)
    ensures resourceType == PreviousPage ==> (r - (pageNumber - 1)) % 0x1_0000_0000 == 0
    ensures resourceType == PreviousPage && pageNumber > MinInt32 ==> r == pageNumber - 1
    ensures resourceType == NextPage ==> (r - (pageNumber + 1)) % 0x1_0000_0000 == 0
    ensures resourceType == NextPage && pageNumber < MaxInt32 ==> r == pageNumber + 1
    ensures resourceType == Current ==> r == pageNumber
  {
    match resourceType
    case PreviousPage => Wrap32(pageNumber - 1)
    case NextPage => Wrap32(pageNumber + 1)
    case Current => pageNumber
  }

  /** The anonymous `paginationMetadata` object serialized into the `X-Pagination` header. */
  datatype PaginationMetadata = PaginationMetadata(
    totalCount: nat,
    pageSize: Int32,
    currentPage: Int32,
    totalPages: int,
    previousPageLink: Option<string>,
    nextPageLink: Option<string>)

  /** A response header the action adds; its JSON serialization is not modelled. */
  datatype ResponseHeader = XPagination(metadata: PaginationMetadata)

  class AuthorsController {
    const libraryRepository: LibraryRepository
    const urlHelper: UrlHelper
    /** The headers added to the response so far. */
    var responseHeaders: seq<ResponseHeader>

    constructor(libraryRepository: LibraryRepository, urlHelper: UrlHelper)
      ensures this.libraryRepository == libraryRepository && this.urlHelper == urlHelper
      ensures responseHeaders == []
    {
      this.libraryRepository := libraryRepository;
      this.urlHelper := urlHelper;
      responseHeaders := [];
    }

    /** The `GetAuthors` route with the query of `parameters`, on the page `resourceType` picks:
        every query value but the page number is carried over unchanged. */
    function CreateAuthorsResourceUri(parameters: AuthorsResourceParameters, resourceType: ResourceUriType): (r: string)
      reads parameters
      ensures r == urlHelper("GetAuthors", AuthorsRouteValues(parameters.fields, parameters.orderBy,
        parameters.searchQuery, parameters.genre, LinkedPageNumber(parameters.pageNumber, resourceType),
        parameters.pageSize))
    {
      match resourceType
      case PreviousPage =>
        urlHelper("GetAuthors", AuthorsRouteValues(parameters.fields, parameters.orderBy,
          parameters.searchQuery, parameters.genre, Wrap32(parameters.pageNumber - 1), parameters.pageSize))
      case NextPage =>
        urlHelper("GetAuthors", AuthorsRouteValues(parameters.fields, parameters.orderBy,
          parameters.searchQuery, parameters.genre, Wrap32(parameters.pageNumber + 1), parameters.pageSize))
      case Current =>
        urlHelper("GetAuthors", AuthorsRouteValues(parameters.fields, parameters.orderBy,
          parameters.searchQuery, parameters.genre, parameters.pageNumber, parameters.pageSize))
    }

    /** The pagination metadata of `page`: its counts copied, a previous-page link exactly when
        there is a previous page and a next-page link exactly when there is a next page. */
    function PaginationMetadataFor(page: PagedList<Author>, parameters: AuthorsResourceParameters): (m: PaginationMetadata)
      reads parameters
      ensures m.totalCount == page.totalCount && m.pageSize == page.pageSize
      ensures m.currentPage == page.currentPage && m.totalPages == page.totalPages
      ensures m.previousPageLink.Some? <==> page.HasPrevious()
      ensures m.previousPageLink.Some? ==> m.previousPageLink.value == CreateAuthorsResourceUri(parameters, PreviousPage)
      ensures m.nextPageLink.Some? <==> page.HasNext()
      ensures m.nextPageLink.Some? ==> m.nextPageLink.value == CreateAuthorsResourceUri(parameters, NextPage)
    {
      var previousPageLink := if page.HasPrevious() then Some(CreateAuthorsResourceUri(parameters, PreviousPage)) else None;
      var nextPageLink := if page.HasNext() then Some(CreateAuthorsResourceUri(parameters, NextPage)) else None;
      PaginationMetadata(page.totalCount, page.pageSize, page.currentPage, page.totalPages, previousPageLink, nextPageLink)
    }

    /** The collection action: a `fields` list naming something that is not an `AuthorDto`
        property is a bad request and leaves the response untouched; otherwise the requested page
        of authors is returned and its pagination metadata is added as the `X-Pagination` header. */
    method GetAuthors(parameters: AuthorsResourceParameters) returns (r: ActionResult<seq<Author>>)
      requires parameters.pageSize != 0
      modifies this`responseHeaders
      ensures !TypeHasProperties(AuthorDtoProperties, parameters.fields) ==>
        r == BadRequest && responseHeaders == old(responseHeaders)
      ensures TypeHasProperties(AuthorDtoProperties, parameters.fields) ==>
        var page := libraryRepository.GetAuthors(parameters);
        && r == Ok(page.items)
        && responseHeaders == old(responseHeaders) + [XPagination(PaginationMetadataFor(page, parameters))]
    {
      if !TypeHasProperties(AuthorDtoProperties, parameters.fields) {
        return BadRequest;
      }
      var authorEntities := libraryRepository.GetAuthors(parameters);
      var previousPageLink := if authorEntities.HasPrevious() then Some(CreateAuthorsResourceUri(parameters, PreviousPage)) else None;
      var nextPageLink := if authorEntities.HasNext() then Some(CreateAuthorsResourceUri(parameters, NextPage)) else None;
      var paginationMetadata := PaginationMetadata(authorEntities.totalCount, authorEntities.pageSize,
        authorEntities.currentPage, authorEntities.totalPages, previousPageLink, nextPageLink);
      responseHeaders := responseHeaders + [XPagination(paginationMetadata)];
      return Ok(authorEntities.items);
    }

    /** The single-author action: a bad `fields` list is rejected whether or not the author
        exists; otherwise the author is returned when it exists and NotFound when it does not. */
    function GetAuthor(id: Guid, fields: Option<string>): (r: ActionResult<Author>)
      reads libraryRepository`authors
      ensures !TypeHasProperties(AuthorDtoProperties, fields) ==> r == BadRequest
      ensures TypeHasProperties(AuthorDtoProperties, fields) ==>
        (r == NotFound <==> !libraryRepository.AuthorExists(id)) && (r.Ok? || r == NotFound)
      ensures r.Ok? ==> r.value.id == id && r.value in libraryRepository.authors
      ensures r.Ok? ==> libraryRepository.GetAuthor(id) == Some(r.value)
    {
      if !TypeHasProperties(AuthorDtoProperties, fields) then BadRequest
      else
        match libraryRepository.GetAuthor(id)
        case None => NotFound
        case Some(authorEntity) => Ok(authorEntity)
    }

    /** On the requested page of a positive page size, the previous-page link is there exactly
        from page 2 on, and the next-page link exactly when some selected author lies beyond the
        page. */
    lemma LinksOfRequestedPage(parameters: AuthorsResourceParameters)
      requires parameters.pageNumber >= 1 && parameters.pageSize > 0
      ensures var page := libraryRepository.GetAuthors(parameters);
        var m := PaginationMetadataFor(page, parameters);
        && (m.previousPageLink.Some? <==> parameters.pageNumber >= 2)
        && (m.nextPageLink.Some? <==> parameters.pageNumber * parameters.pageSize < page.totalCount)
    {
      var page := libraryRepository.GetAuthors(parameters);
      BeforeLastPage(page.totalCount, parameters.pageNumber, parameters.pageSize);
    }

    /** The page numbers in the links of a page never wrap around: when the selected authors can
        be counted in an `int`, the links point at exactly the page before and the page after. */
    lemma {:induction false} LinkedPagesAreNeighbours(parameters: AuthorsResourceParameters)
      requires parameters.pageSize != 0
      requires libraryRepository.GetAuthors(parameters).totalCount <= MaxInt32
      ensures var page := libraryRepository.GetAuthors(parameters);
        && (page.HasPrevious() ==> LinkedPageNumber(parameters.pageNumber, PreviousPage) == parameters.pageNumber - 1)
        && (page.HasNext() ==> LinkedPageNumber(parameters.pageNumber, NextPage) == parameters.pageNumber + 1)
    {
      var page := libraryRepository.GetAuthors(parameters);
      if page.HasNext() {
        NextPageNumberFits(page.totalCount, parameters.pageNumber, parameters.pageSize);
      }
    }
  }
}
