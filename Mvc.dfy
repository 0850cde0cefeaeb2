/** The few ASP.NET Core MVC shapes the controllers produce: action results, route values,
    links, and the URL helper, which stays an arbitrary function of route name and values. */
module Mvc {
  import opened Wrappers
  import opened Int32Math

  /** `Ok(value)`, `BadRequest()`, `NotFound()` and `NoContent()`. */
  datatype ActionResult<T> = Ok(value: T) | BadRequest | NotFound | NoContent

  /** The anonymous route-value objects: `new { }` and the author-collection query. */
  datatype RouteValues =
    | EmptyRouteValues
    | AuthorsRouteValues(
        fields: Option<string>,
        orderBy: Option<string>,
        searchQuery: Option<string>,
        genre: Option<string>,
        pageNumber: Int32,
        pageSize: Int32)

  /** `IUrlHelper.Link(routeName, values)`: which URL it builds is up to routing. */
  type UrlHelper = (string, RouteValues) -> string

  /** A hypermedia link: its target, its relation to the resource, and the HTTP method. */
  datatype LinkDto = LinkDto(href: string, rel: string, httpMethod: string)
}
