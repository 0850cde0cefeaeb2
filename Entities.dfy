/** The two persisted entities, reduced to the columns the queries read. */
module Entities {

  /** A `Guid`; 0 plays the part of `Guid.Empty`. */
  type Guid = nat

  const EmptyGuid: Guid := 0

  datatype Author = Author(id: Guid, firstName: string, lastName: string, genre: string)

  datatype Book = Book(id: Guid, authorId: Guid, title: string, description: string)

  /** Sort key of `OrderBy(a => a.FirstName).ThenBy(a => a.LastName)`. */
  function NameKey(a: Author): seq<string> {
    [a.firstName, a.lastName]
  }

  /** Sort key of `OrderBy(b => b.Title)`. */
  function TitleKey(b: Book): seq<string> {
    [b.title]
  }
}
