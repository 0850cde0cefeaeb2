# Library API: query and representation layer, in Dafny

This project models the query-and-representation layer of the ASP.NET Core "Library" API
(authors and their books). It covers the following pieces:

- **Query parameters.** `AuthorsResourceParameters` has a default page number and page size and caps the page size at 20.
- **Paginator.** `PagedList<T>.Create` slices one page out of a sequence and computes the paging metadata.
- **Field validator.** `TypeHelperService.TypeHasProperties` checks a comma-separated field list against the public properties of `AuthorDto`.
- **Sort-field mapping.** `PropertyMappingService` holds the author sort-field table and answers `GetPropertyMapping` and `ValidMappingExistsFor`.
- **Sort planner.** `IQueryableExtensions.ApplySort` turns an `orderBy` string into a sequence of sort directives.
- **Repository.** `LibraryRepository` filters, orders, pages, looks up and inserts authors and books.
- **Media-type constraint.** `RequestHeaderMatchesMediaTypeAttribute.Accept` decides whether a request header selects an action.
- **Controllers.** `AuthorsController` and `RootController` build links, pagination metadata and action results.

Each source file has one Dafny file and module. Four shared modules support them:

- `Wrappers`: `Option` and `Result`.
- `Int32Math`: the `Int32` range and unchecked 32-bit wrap-around.
- `Text`: the .NET string operations the code uses (`Trim`, `Split`, `IsNullOrWhiteSpace`, ordinal-ignore-case comparison, `ToLowerInvariant`, `EndsWith`, cut at the first space).
- `Sequences`: the LINQ operators the repository composes (`Where`, `FirstOrDefault`, `OrderBy`/`ThenBy`).

Code that changes state in place is modelled as classes whose methods say what changes:

- the parameter object's setters;
- the mapping service's constructor;
- the repository's insertions;
- the `X-Pagination` response header the authors action adds.

Loops are methods with `while` loops:

- the clause and property loops of `ApplySort`, which build up the query's orderings;
- the read-only loops of `ValidMappingExistsFor` and `Accept`.

`GetRoot` builds its list of links with three appends. Each method is proved against a specification function, and the lemmas are proved about those functions.

Other representation choices:

- **Null strings.** A null string is `None`.
- **Guids.** A `Guid` is a natural number, and `Guid.Empty` is 0.
- **`IUrlHelper.Link`.** This is an arbitrary function of the route name and the route values.

Source paths below are relative to the repository root.

## Model

| member | source | states |
|---|---|---|
| Int32Math.Wrap32 | start-end/Library/src/Library.API/Helpers/AuthorsResourceParameters.cs:22 | unchecked `int` arithmetic: the wrapped value is congruent to the exact one modulo 2^32 and equals it whenever it fits |
| Text.Trim | start-end/Library/src/Library.API/Services/TypeHelperService.cs:29 | `Trim()` leaves no white space at either end, and yields the empty string exactly for an all-white-space input |
| Text.TrimStartShape | start-end/Library/src/Library.API/Services/TypeHelperService.cs:29 | `TrimStart` drops exactly a leading run of white space, and keeps a suffix that starts with a non-white-space character |
| Text.TrimEndShape | start-end/Library/src/Library.API/Services/TypeHelperService.cs:29 | `TrimEnd` drops exactly a trailing run of white space, and keeps a prefix that ends with a non-white-space character |
| Text.TrimPadded | start-end/Library/src/Library.API/Services/TypeHelperService.cs:29 | white space added on either side of a string never survives trimming |
| Text.TrimUnpadded | start-end/Library/src/Library.API/Services/TypeHelperService.cs:29 | a string with no white space at its ends is its own trim |
| Text.Split | start-end/Library/src/Library.API/Services/TypeHelperService.cs:21 | `Split(',')` yields at least one part, no part contains the separator, and joining the parts with it gives the input back |
| Text.SplitJoin | start-end/Library/src/Library.API/Services/TypeHelperService.cs:21 | splitting undoes joining for parts free of the separator |
| Text.BeforeFirstSpace | start-end/Library/src/Library.API/Services/PropertyMappingService.cs:93-94 | `Remove(IndexOf(" "))` keeps no space, and stops only at a space or at the end |
| Text.BeforeFirstSpacePrefix | start-end/Library/src/Library.API/Services/PropertyMappingService.cs:93-94 | what is kept is a prefix of the clause |
| Text.BeforeFirstSpaceAt | start-end/Library/src/Library.API/Services/PropertyMappingService.cs:93-94 | when the first space is at position k, the key is the first k characters |
| Sequences.Filter | start-end/Library/src/Library.API/Services/LibraryRepository.cs:84 | `Where` keeps every copy of each element satisfying the predicate and nothing else, in the original order |
| Sequences.FirstWhere | start-end/Library/src/Library.API/Services/LibraryRepository.cs:73 | `FirstOrDefault` gives null exactly when nothing matches, and otherwise the first match |
| Sequences.SortBy | start-end/Library/src/Library.API/Services/LibraryRepository.cs:78 | `OrderBy(...).ThenBy(...)` returns a permutation of its input, sorted by the key |
| Sequences.FilterSorted | start-end/Library/src/Library.API/Services/LibraryRepository.cs:80-94 | filtering a sorted sequence keeps it sorted |
| Sequences.FilterExactlyOne | start-end/Library/src/Library.API/Services/PropertyMappingService.cs:62-64 | `OfType(...)` yields exactly one element exactly when exactly one registered mapping qualifies |
| ResourceParameters.ClampPageSize | start-end/Library/src/Library.API/Helpers/AuthorsResourceParameters.cs:19 | the stored size never exceeds 20; a value above 20 becomes 20, and anything else, including 0 and negatives, is kept |
| ResourceParameters.ClampPageSizeIdempotent | start-end/Library/src/Library.API/Helpers/AuthorsResourceParameters.cs:19 | setting the same page size twice stores what setting it once stores |
| ResourceParameters.WrappedProduct | start-end/Library/src/Library.API/Helpers/AuthorsResourceParameters.cs:22 | wrapping a factor before multiplying leaves the product congruent modulo 2^32 |
| ResourceParameters.AuthorsResourceParameters.constructor | start-end/Library/src/Library.API/Helpers/AuthorsResourceParameters.cs:12-26 | a fresh object has page 1, page size 10, and no genre, search query, fields or orderBy |
| ResourceParameters.AuthorsResourceParameters.SetPageSize | start-end/Library/src/Library.API/Helpers/AuthorsResourceParameters.cs:16-20 | the setter stores the clamped size and leaves every other property unchanged |
| ResourceParameters.AuthorsResourceParameters.SetPageNumber | start-end/Library/src/Library.API/Helpers/AuthorsResourceParameters.cs:12 | stores the page number and leaves the rest unchanged |
| ResourceParameters.AuthorsResourceParameters.SetGenre | start-end/Library/src/Library.API/Helpers/AuthorsResourceParameters.cs:24 | stores the genre and leaves the rest unchanged |
| ResourceParameters.AuthorsResourceParameters.SetSearchQuery | start-end/Library/src/Library.API/Helpers/AuthorsResourceParameters.cs:26 | stores the search query and leaves the rest unchanged |
| ResourceParameters.AuthorsResourceParameters.SetFields | start-end/Library/src/Library.API/Controllers/AuthorsController.cs:112 | stores the `Fields` property the controller reads, and leaves the rest unchanged |
| ResourceParameters.AuthorsResourceParameters.SetOrderBy | start-end/Library/src/Library.API/Controllers/AuthorsController.cs:168 | stores the `OrderBy` property the controller reads, and leaves the rest unchanged |
| ResourceParameters.AuthorsResourceParameters.AuthorsToSkip | start-end/Library/src/Library.API/Helpers/AuthorsResourceParameters.cs:22 | `PageSize * (PageNumber - 1)` in unchecked arithmetic: equal to the exact product when that fits, congruent modulo 2^32 always |
| PagedLists.Skip | start-end/Library/src/Library.API/Helpers/PagedList.cs:39 | `Skip` returns only elements of its source |
| PagedLists.Take | start-end/Library/src/Library.API/Helpers/PagedList.cs:39 | `Take(n)` returns at most n elements, none for n ≤ 0, all from its source |
| PagedLists.CeilDiv | start-end/Library/src/Library.API/Helpers/PagedList.cs:32 | the exact ceiling of count / pageSize; 0 for an empty source |
| PagedLists.PageStart | start-end/Library/src/Library.API/Helpers/PagedList.cs:39 | the offset of a page never passes the end of the source |
| PagedLists.PageEnd | start-end/Library/src/Library.API/Helpers/PagedList.cs:39 | a page ends between its start and the end of the source |
| PagedLists.PageItemsSlice | start-end/Library/src/Library.API/Helpers/PagedList.cs:39 | `Skip((p-1)*s).Take(s)` is the slice from (p-1)*s to min(p*s, n) |
| PagedLists.Create | start-end/Library/src/Library.API/Helpers/PagedList.cs:27-42 | the total count is the whole source's length; current page and page size echo the arguments; the page has at most pageSize items, all from the source, and for p ≥ 1 and s > 0 is exactly the slice (p-1)*s .. min(p*s, n) in source order, and for p < 1 and s > 0 the first min(s, n) items; TotalPages is the ceiling of n / s |
| PagedLists.PageLength | start-end/Library/src/Library.API/Helpers/PagedList.cs:39 | a full page holds pageSize items, the last page holds the remainder, and a page past the end holds none |
| PagedLists.HasPreviousIff | start-end/Library/src/Library.API/Helpers/PagedList.cs:23 | HasPrevious holds exactly from page 2 on |
| PagedLists.BeforeLastPage | start-end/Library/src/Library.API/Helpers/PagedList.cs:25-32 | page p is before the last page exactly when p*s < count |
| PagedLists.HasNextIff | start-end/Library/src/Library.API/Helpers/PagedList.cs:25 | HasNext holds exactly when some item lies beyond the current page |
| PagedLists.NextPageNumberFits | start-end/Library/src/Library.API/Helpers/PagedList.cs:25-32 | when the count fits in an `int`, a page that has a next page is not the last `int`, so page + 1 does not wrap |
| PagedLists.EmptySource | start-end/Library/src/Library.API/Helpers/PagedList.cs:29-32 | an empty source gives no items, a total of 0 and 0 pages; HasNext then holds only for a negative page number |
| PagedLists.PagesArePrefix | start-end/Library/src/Library.API/Helpers/PagedList.cs:39 | pages 1..k, concatenated, are the first min(k*s, n) items, so consecutive pages neither skip nor repeat |
| PagedLists.AllPagesCoverSource | start-end/Library/src/Library.API/Helpers/PagedList.cs:32-39 | reading pages 1..TotalPages gives back the whole source, in order |
| PagedLists.FactorFits | start-end/Library/src/Library.API/Helpers/PagedList.cs:39 | a product that fits in an `int` has no factor below `int.MinValue` |
| PagedLists.CreateAsWritten | start-end/Library/src/Library.API/Helpers/PagedList.cs:39 | the offset as the code computes it, in 32-bit arithmetic: same page count, and the same result as `Create` whenever (p-1)*s fits |
| PagedLists.SkipOverflowCounterexample | start-end/Library/src/Library.API/Helpers/PagedList.cs:39 | page 107374184 of size 20 over a one-item source repeats the first page as written, instead of being empty |
| PagedLists.PagePastEndEmpty | start-end/Library/src/Library.API/Helpers/PagedList.cs:39 | every page that starts past the end is empty, with no error |
| PagedLists.NonPositivePageIsFirst | start-end/Library/src/Library.API/Helpers/PagedList.cs:39 | the page number is never checked: a page number below 1 gives the same items as page 1 |
| PagedLists.SecondOfThreePages | start-end/Library/src/Library.API/Helpers/PagedList.cs:27-42 | 25 items in pages of 10: page 2 is items 10..19, there are 3 pages, and both flags hold |
| TypeHelperService.AllAreProperties | start-end/Library/src/Library.API/Services/TypeHelperService.cs:24-44 | the loop's answer is true exactly when every trimmed token names a property, ignoring case |
| TypeHelperService.TypeHasProperties | start-end/Library/src/Library.API/Services/TypeHelperService.cs:13-45 | true for null or blank `fields`, and otherwise true exactly when every comma-separated token, trimmed, names a property, ignoring case |
| TypeHelperService.JoinNotAllWhiteSpace | start-end/Library/src/Library.API/Services/TypeHelperService.cs:15 | a list with one non-blank field is not blank as a whole |
| TypeHelperService.FieldsTokens | start-end/Library/src/Library.API/Services/TypeHelperService.cs:21-24 | the tokens checked are exactly the fields the client listed |
| TypeHelperService.UnknownFieldRejects | start-end/Library/src/Library.API/Services/TypeHelperService.cs:37-40 | one unknown field rejects the whole list, wherever it stands |
| TypeHelperService.OrderAndRepetitionIrrelevant | start-end/Library/src/Library.API/Services/TypeHelperService.cs:24-41 | reordering or repeating the fields does not change the answer |
| TypeHelperService.PaddingIrrelevant | start-end/Library/src/Library.API/Services/TypeHelperService.cs:29 | white space around each field is ignored |
| TypeHelperService.AuthorDtoSingleField | start-end/Library/src/Library.API/Models/AuthorDto.cs:13-19 | a single field is accepted for `AuthorDto` exactly when it is Id, Name, Age or Genre, in any casing |
| PropertyMappingService.Lookup | start-end/Library/src/Library.API/Services/PropertyMappingService.cs:19-51 | the case-insensitive dictionary indexer: nothing exactly when the key is absent, and otherwise a value stored under a matching key |
| PropertyMappingService.LookupUnique | start-end/Library/src/Library.API/Services/PropertyMappingService.cs:19 | with keys unique up to case, the value found is the one stored under the matching key |
| PropertyMappingService.PropertyKey | start-end/Library/src/Library.API/Services/PropertyMappingService.cs:88-94 | the key of a clause contains no space and is no longer than the trimmed clause |
| PropertyMappingService.PropertyKeyOf | start-end/Library/src/Library.API/Services/PropertyMappingService.cs:88-94 | padding, then a key without spaces, then a space-led tail: the key is exactly that key |
| PropertyMappingService.AuthorKeys | start-end/Library/src/Library.API/Services/PropertyMappingService.cs:19-51 | the author table contains a key exactly when it is Id, Genre, Age or Name in some casing, and no key appears twice |
| PropertyMappingService.AuthorLookups | start-end/Library/src/Library.API/Services/PropertyMappingService.cs:22-50 | Id → [Id] and Genre → [Genre], not reverted; Age → [DateOfBirth], reverted; Name → [FirstName, LastName], not reverted |
| PropertyMappingService.PropertyMappingService.constructor | start-end/Library/src/Library.API/Services/PropertyMappingService.cs:53-58 | the service starts with the one AuthorDto → Author mapping registered |
| PropertyMappingService.PropertyMappingService.GetPropertyMapping | start-end/Library/src/Library.API/Services/PropertyMappingService.cs:60-70 | succeeds exactly when exactly one AuthorDto → Author mapping is registered, whatever the type arguments, and returns its dictionary; otherwise fails naming the type arguments |
| PropertyMappingService.PropertyMappingService.ValidMappingExistsFor | start-end/Library/src/Library.API/Services/PropertyMappingService.cs:72-104 | fails when the mapping lookup fails, even for blank `fields`; otherwise true for blank `fields`, and else true exactly when every clause's key is in the table |
| PropertyMappingService.ConstructedServiceResolves | start-end/Library/src/Library.API/Services/PropertyMappingService.cs:55-66 | a freshly built service resolves every pair of type arguments to the author table |
| PropertyMappingService.DuplicateRegistrationFails | start-end/Library/src/Library.API/Services/PropertyMappingService.cs:64-69 | registering the author mapping twice makes every lookup fail |
| PropertyMappingService.NameDescMapped | start-end/Library/src/Library.API/Services/PropertyMappingService.cs:88-97 | "name desc" validates by its key "name" |
| PropertyMappingService.AgeAscMapped | start-end/Library/src/Library.API/Services/PropertyMappingService.cs:88-97 | " Age asc" validates by its key "Age" |
| PropertyMappingService.UpperNameMapped | start-end/Library/src/Library.API/Services/PropertyMappingService.cs:88-100 | "NAME" validates, because the lookup ignores case |
| PropertyMappingService.AuthorClausesAccepted | start-end/Library/src/Library.API/Services/PropertyMappingService.cs:85-103 | the list "name desc", " Age asc", "NAME" is accepted |
| PropertyMappingService.AuthorClauseRejected | start-end/Library/src/Library.API/Services/PropertyMappingService.cs:97-100 | a list containing "books" is rejected |
| IQueryableExtensions.OrderByArgument | start-end/Library/src/Library.API/Helpers/IQueryableExtensions.cs:80 | the Dynamic LINQ argument starts with the property and ends in " descending" exactly for a descending directive |
| IQueryableExtensions.PropertyDirectives | start-end/Library/src/Library.API/Helpers/IQueryableExtensions.cs:72-81 | a mapping entry emits one directive per destination property |
| IQueryableExtensions.PropertyDirectivesShape | start-end/Library/src/Library.API/Helpers/IQueryableExtensions.cs:72-81 | the directives list the properties last to first; without revert all keep the requested direction; with revert the first is flipped and each next one alternates, because the toggle accumulates |
| IQueryableExtensions.ClauseDirectives | start-end/Library/src/Library.API/Helpers/IQueryableExtensions.cs:45-68 | a clause fails exactly when its key is unmapped, with an error naming that key |
| IQueryableExtensions.ClauseResults | start-end/Library/src/Library.API/Helpers/IQueryableExtensions.cs:36-40 | one result per clause, each what that clause emits on its own |
| IQueryableExtensions.ThenAppend | start-end/Library/src/Library.API/Helpers/IQueryableExtensions.cs:40-82 | emitting a then b before a plan is emitting a + b before it |
| IQueryableExtensions.PlanAdvance | start-end/Library/src/Library.API/Helpers/IQueryableExtensions.cs:40-82 | visiting one more clause moves its directives from the plan ahead to those emitted, or stops with its error |
| IQueryableExtensions.ApplyClause | start-end/Library/src/Library.API/Helpers/IQueryableExtensions.cs:72-81 | the inner loop appends exactly the entry's directives to the query's sort keys, and leaves the rows alone |
| IQueryableExtensions.ApplyOrderByClause | start-end/Library/src/Library.API/Helpers/IQueryableExtensions.cs:45-81 | one clause either appends its directives or fails with its key's error |
| IQueryableExtensions.ApplyOrderByClauses | start-end/Library/src/Library.API/Helpers/IQueryableExtensions.cs:40-82 | the outer loop, last clause first, appends exactly the planned directives, or returns the first error it meets |
| IQueryableExtensions.ApplySort | start-end/Library/src/Library.API/Helpers/IQueryableExtensions.cs:18-85 | a null source or dictionary is an argument-null error; a blank orderBy leaves the query unchanged; otherwise the planned directives are appended, or the first unmapped key met is reported |
| IQueryableExtensions.PlanClausesOutcome | start-end/Library/src/Library.API/Helpers/IQueryableExtensions.cs:40-82 | the plan succeeds exactly when no clause fails, then emits all their directives; otherwise it carries the error of a failing clause after which every clause succeeds |
| IQueryableExtensions.ClauseDirectivesCount | start-end/Library/src/Library.API/Helpers/IQueryableExtensions.cs:63-72 | a mapped clause emits one directive per destination property of its key |
| IQueryableExtensions.ClauseResultsMeaning | start-end/Library/src/Library.API/Helpers/IQueryableExtensions.cs:53-72 | a clause's result succeeds exactly when its key is mapped; otherwise it names the key; it emits as many directives as the key has destinations |
| IQueryableExtensions.EmittedDestinations | start-end/Library/src/Library.API/Helpers/IQueryableExtensions.cs:40-82 | the directives emitted number the sum of the clauses' destination counts |
| IQueryableExtensions.ClausesOutcome | start-end/Library/src/Library.API/Helpers/IQueryableExtensions.cs:40-82 | the plan succeeds exactly when every key is mapped, and then emits as many directives as there are destination properties; otherwise it fails naming an unmapped key, after which every key is mapped (the first unmapped key in visiting order) |
| IQueryableExtensions.SortPlanAgreesWithValidation | start-end/Library/src/Library.API/Helpers/IQueryableExtensions.cs:30-60 | `ApplySort` succeeds exactly when `ValidMappingExistsFor` accepts the same string against the same table |
| IQueryableExtensions.TwoClauses | start-end/Library/src/Library.API/Helpers/IQueryableExtensions.cs:40 | with two clauses, the second clause's directives come first, then the first's |
| IQueryableExtensions.SingleClause | start-end/Library/src/Library.API/Helpers/IQueryableExtensions.cs:36-60 | a string without commas is planned as its one clause |
| IQueryableExtensions.OnePropertyDirectives | start-end/Library/src/Library.API/Helpers/IQueryableExtensions.cs:75-78 | a one-property entry emits one directive, flipped exactly when the entry reverts |
| IQueryableExtensions.TwoPropertyDirectives | start-end/Library/src/Library.API/Helpers/IQueryableExtensions.cs:72 | a two-property entry without revert emits the second property first |
| IQueryableExtensions.MappedClause | start-end/Library/src/Library.API/Helpers/IQueryableExtensions.cs:49-63 | a single clause whose key maps to v emits v's directives in the clause's direction |
| IQueryableExtensions.AgeClauseKey | start-end/Library/src/Library.API/Helpers/IQueryableExtensions.cs:53-63 | "age desc" and "age DESC" both look up the Age entry: the key is cut at the first space and compared ignoring case |
| IQueryableExtensions.AgeDescDirection | start-end/Library/src/Library.API/Helpers/IQueryableExtensions.cs:49 | "age desc" asks for descending order |
| IQueryableExtensions.AgeDescending | start-end/Library/src/Library.API/Helpers/IQueryableExtensions.cs:45-80 | "age desc" sorts by DateOfBirth ascending |
| IQueryableExtensions.AgeUpperDescDirection | start-end/Library/src/Library.API/Helpers/IQueryableExtensions.cs:49 | "age DESC" is not descending: the suffix test is case-sensitive |
| IQueryableExtensions.AgeUpperDesc | start-end/Library/src/Library.API/Helpers/IQueryableExtensions.cs:45-80 | "age DESC" sorts by DateOfBirth descending |
| IQueryableExtensions.NameClauseKey | start-end/Library/src/Library.API/Helpers/IQueryableExtensions.cs:53-63 | "name" looks up the Name entry |
| IQueryableExtensions.NameClauseDirection | start-end/Library/src/Library.API/Helpers/IQueryableExtensions.cs:49 | "name" asks for ascending order |
| IQueryableExtensions.NameAscending | start-end/Library/src/Library.API/Helpers/IQueryableExtensions.cs:45-80 | "name" emits LastName ascending, then FirstName ascending |
| LibraryRepository.AuthorsBeforePaging | start-end/Library/src/Library.API/Services/LibraryRepository.cs:78-94 | sorted by first name, then last name; holds each author as often as the table does when it passes both filters, and otherwise not at all |
| LibraryRepository.NoFiltersKeepEveryAuthor | start-end/Library/src/Library.API/Services/LibraryRepository.cs:80-94 | with a null or blank genre and search query, every author is kept |
| LibraryRepository.GenrePaddingIrrelevant | start-end/Library/src/Library.API/Services/LibraryRepository.cs:82 | white space around the genre does not change what it selects |
| LibraryRepository.GenreCaseIrrelevant | start-end/Library/src/Library.API/Services/LibraryRepository.cs:82-84 | the genre's letter case does not change what it selects |
| LibraryRepository.SearchIsWholeField | start-end/Library/src/Library.API/Services/LibraryRepository.cs:89-93 | a query shorter than genre, first name and last name never matches, so the search matches whole fields, not substrings |
| LibraryRepository.LibraryRepository.constructor | start-end/Library/src/Library.API/Services/LibraryRepository.cs:20-23 | the repository starts on the given author and book tables |
| LibraryRepository.LibraryRepository.AuthorExists | start-end/Library/src/Library.API/Services/LibraryRepository.cs:56-59 | `Any` holds exactly when some author in the table has the id |
| LibraryRepository.LibraryRepository.GetAuthor | start-end/Library/src/Library.API/Services/LibraryRepository.cs:56-74 | null exactly when no author has the id (`AuthorExists` fails); otherwise the first author with that id |
| LibraryRepository.LibraryRepository.GetAuthors | start-end/Library/src/Library.API/Services/LibraryRepository.cs:76-99 | the total counts every selected author; page number and size echo the parameters; TotalPages is the ceiling of count / size; every item is a selected author of the table; for p ≥ 1 and s > 0 the items are exactly that page of the ordered, filtered authors, and for p < 1 and s > 0 the first s of them |
| LibraryRepository.LibraryRepository.PagingAsWritten | start-end/Library/src/Library.API/Services/LibraryRepository.cs:96 | the page `PagedList<Author>.Create` builds with its 32-bit offset is the page `GetAuthors` returns whenever `(PageNumber - 1) * PageSize` fits in an `int` |
| LibraryRepository.LibraryRepository.GetAuthorsByIds | start-end/Library/src/Library.API/Services/LibraryRepository.cs:101-104 | exactly the authors whose id is listed, as often as in the table, ordered by first name then last name |
| LibraryRepository.LibraryRepository.GetBookForAuthor | start-end/Library/src/Library.API/Services/LibraryRepository.cs:106-109 | `FirstOrDefault`: null exactly when no book has both the author id and the id, and otherwise the first such book in the table |
| LibraryRepository.LibraryRepository.GetBooksForAuthor | start-end/Library/src/Library.API/Services/LibraryRepository.cs:111-114 | exactly that author's books, ordered by title |
| LibraryRepository.LibraryRepository.AddAuthor | start-end/Library/src/Library.API/Services/LibraryRepository.cs:25-38 | the author is appended under the fresh id; its books are appended in order with fresh ids and that author id; the author then exists |
| LibraryRepository.LibraryRepository.AddBookForAuthor | start-end/Library/src/Library.API/Services/LibraryRepository.cs:40-54 | changes nothing for an unknown author; otherwise appends the book under that author, keeping a non-empty id and giving an empty one the fresh id; the new book is then found, and its id is never empty |
| RequestHeaderMatchesMediaType.HeaderValue | start-end/Library/src/Library.API/Helpers/RequestHeaderMatchesMediaTypeAttribute.cs:31-41 | the header's value is absent exactly when no header of that name (ignoring case) is present, and otherwise is that header's values joined by commas |
| RequestHeaderMatchesMediaType.RequestHeaderMatchesMediaTypeAttribute.constructor | start-end/Library/src/Library.API/Helpers/RequestHeaderMatchesMediaTypeAttribute.cs:23-27 | the constraint keeps the header name and media types it is given |
| RequestHeaderMatchesMediaType.RequestHeaderMatchesMediaTypeAttribute.Order | start-end/Library/src/Library.API/Helpers/RequestHeaderMatchesMediaTypeAttribute.cs:21 | the order is always 0 |
| RequestHeaderMatchesMediaType.RequestHeaderMatchesMediaTypeAttribute.Accept | start-end/Library/src/Library.API/Helpers/RequestHeaderMatchesMediaTypeAttribute.cs:29-50 | true exactly when the header is present and its whole value equals one of the media types, ignoring case |
| RequestHeaderMatchesMediaType.AbsentHeaderRejects | start-end/Library/src/Library.API/Helpers/RequestHeaderMatchesMediaTypeAttribute.cs:33-36 | without the header the request is not accepted |
| RequestHeaderMatchesMediaType.NoMediaTypesRejects | start-end/Library/src/Library.API/Helpers/RequestHeaderMatchesMediaTypeAttribute.cs:39-49 | with no media types nothing is accepted |
| RequestHeaderMatchesMediaType.MediaTypeOrderIrrelevant | start-end/Library/src/Library.API/Helpers/RequestHeaderMatchesMediaTypeAttribute.cs:39-49 | only the set of media types matters, not their order or repetition |
| RequestHeaderMatchesMediaType.WholeValueOnly | start-end/Library/src/Library.API/Helpers/RequestHeaderMatchesMediaTypeAttribute.cs:41 | a value that merely contains a media type does not match it |
| RequestHeaderMatchesMediaType.CaseIgnored | start-end/Library/src/Library.API/Helpers/RequestHeaderMatchesMediaTypeAttribute.cs:41 | a value equal to a media type up to case is accepted |
| AuthorsController.LinkedPageNumber | start-end/Library/src/Library.API/Controllers/AuthorsController.cs:158-200 | the previous link carries page - 1, the next link page + 1, and any other link the page itself, in unchecked 32-bit arithmetic |
| AuthorsController.AuthorsController.constructor | start-end/Library/src/Library.API/Controllers/AuthorsController.cs:31-40 | the controller keeps its repository and URL helper, and starts with no response headers |
| AuthorsController.AuthorsController.CreateAuthorsResourceUri | start-end/Library/src/Library.API/Controllers/AuthorsController.cs:158-200 | every link goes to route GetAuthors; fields, orderBy, searchQuery, genre and pageSize are copied unchanged, and only the page number depends on the link type |
| AuthorsController.AuthorsController.PaginationMetadataFor | start-end/Library/src/Library.API/Controllers/AuthorsController.cs:119-131 | the metadata copies the total count, page size, current page and total pages; the previous link is present exactly when there is a previous page, the next link exactly when there is a next page |
| AuthorsController.AuthorsController.GetAuthors | start-end/Library/src/Library.API/Controllers/AuthorsController.cs:101-136 | a field list that names a non-`AuthorDto` property is a bad request, and no header is added; otherwise the repository's page is returned and its metadata is added as `X-Pagination` |
| AuthorsController.AuthorsController.GetAuthor | start-end/Library/src/Library.API/Controllers/AuthorsController.cs:138-156 | bad fields give BadRequest whether or not the author exists; otherwise NotFound exactly when no author has the id, and else the author the repository's `GetAuthor` returns, the first with that id |
| AuthorsController.AuthorsController.LinksOfRequestedPage | start-end/Library/src/Library.API/Controllers/AuthorsController.cs:119-121 | for p ≥ 1 and s > 0, the previous link is present exactly from page 2 on, and the next link exactly when p*s < total |
| AuthorsController.AuthorsController.LinkedPagesAreNeighbours | start-end/Library/src/Library.API/Controllers/AuthorsController.cs:119-185 | when the count fits in an `int`, the links that are built point at exactly page - 1 and page + 1, with no wrap-around |
| RootController.RootLinks | start-end/Library/src/Library.API/Controllers/RootController.cs:31-46 | exactly three links: self/GET to GetRoot, authors/GET to GetAuthors, and create_author/POST to CreateAuthor, each with empty route values |
| RootController.CapitalizedFold | start-end/Library/src/Library.API/Controllers/RootController.cs:29 | capitalizing the first letter changes a string but not its case-folded form |
| RootController.RootController.constructor | start-end/Library/src/Library.API/Controllers/RootController.cs:21-24 | the controller keeps its URL helper |
| RootController.RootController.GetRoot | start-end/Library/src/Library.API/Controllers/RootController.cs:26-52 | Ok with the three root links when the Accept value is exactly the HATEOAS media type; NoContent for any other value, or none |
| RootController.CaseSensitiveUnlikeConstraint | start-end/Library/src/Library.API/Controllers/RootController.cs:29 | an Accept value that differs from the HATEOAS media type only in case satisfies the media-type constraint, yet the root action answers NoContent |
| RootController.CaseVariantExists | start-end/Library/src/Library.API/Controllers/RootController.cs:29 | such a value exists: the media type with a capital first letter |

## Left out

- **Dynamic LINQ.** `source.OrderBy(string)` in `ApplySort` is a foreign library. The model records the directives passed to it, oldest first, and not how rows get reordered.
- **Entity Framework, SQL and collation.** The database context is two in-memory sequences. String ordering is ordinal, and lower-casing is ASCII-only.
- **Persistence operations.** `Save`, `DeleteAuthor`, `DeleteBook`, `UpdateAuthor` and `UpdateBookForAuthor` are persistence operations with no logic of their own.
- **Fresh ids.** `Guid.NewGuid()` is nondeterministic. The caller passes the fresh ids in.
- **Relationship fix-up.** `LibraryRepository.AddAuthor` and `AddBookForAuthor` rely on Entity Framework to set each added book's `AuthorId`. The model sets it directly.
- PagedLists.Create: the `double` ceiling is modelled as integer ceiling division. The two agree for 32-bit operands.
- PagedLists.Create: requires `pageSize != 0`. With a page size of 0 the source does not throw. It returns an empty page (`Skip(0).Take(0)`), and `TotalPages` is the `(int)` cast of a `double` infinity or NaN (`Helpers/PagedList.cs:32`), whose value depends on the platform. The model leaves that case out.
- PagedLists.Create: the total count is a `nat`. The source's `Count()` throws `OverflowException` above `int.MaxValue` (`Helpers/PagedList.cs:38`), and the model does not model that exception.
- LibraryRepository.LibraryRepository.GetAuthors: requires `pageSize != 0`, for the same reason as `PagedLists.Create`, to which it passes the page size.
- LibraryRepository.LibraryRepository.GetAuthors: pages with the corrected offset of `PagedLists.Create`, not the 32-bit offset of `Helpers/PagedList.cs:39` that `Services/LibraryRepository.cs:96` reaches. Its slice guarantee therefore holds for the source only while `(PageNumber - 1) * PageSize` fits in an `int` (`PagingAsWritten`). Beyond that, the source skips the wrapped offset instead. Under in-memory LINQ a wrapped offset below zero skips nothing and gives the first page again, and a positive one starts at an unrelated earlier position (page 214748366 of size 20 wraps to offset 4). Under the SQL Server provider a negative OFFSET most likely fails. See "## Findings".
- AuthorsController.AuthorsController.GetAuthors: requires `pageSize != 0`, because it calls `LibraryRepository.GetAuthors`.
- AuthorsController.AuthorsController.GetAuthors: returns the repository's page, which uses the corrected offset. For a page number whose offset does not fit in an `int`, the source returns the items at the wrapped offset instead, as described for `LibraryRepository.LibraryRepository.GetAuthors` above.
- Text.Fold: case-insensitive comparison is ASCII-only. Other characters compare exactly.
- Text.ToLower: `ToLowerInvariant` is ASCII-only. Other characters are kept as they are.
- **Culture-sensitive string calls.** `EndsWith(" desc")` and `IndexOf(" ")` are culture-sensitive in .NET. The model compares them ordinally.
- **The null check on `PropertyMappingValue`.** `Helpers/IQueryableExtensions.cs:65-68` checks whether the stored value is null. Dictionary values in the model are never null.
- **Null entity fields.** Author fields are never null in the model.
- **Field shaping and mapping.** `ShapeData` and AutoMapper are left out. A successful `GetAuthors` or `GetAuthor` carries the author entities that would be shaped.
- **JSON serialization.** The model does not serialize the `X-Pagination` header to JSON.
- **`LinkDto`.** It is modelled as `Mvc.LinkDto(href, rel, httpMethod)`, holding the three values `RootController` passes to its constructor. The class has no other behaviour in the model.
- **`ResourceUriType`.** The model has `PreviousPage`, `NextPage` and `Current`. `Current` stands for the `default` branch of the `switch` in `CreateAuthorsResourceUri`.
- **Other controller actions.** `BlockAuthorCreation`, `CreateAuthor` and `DeleteAuthor` are left out, as are the other controllers. So are `Startup`, `Program`, `DateTimeOffsetExtensions.GetCurrentAge`, which reads the clock, and the framework-only DTO and result classes.
- **ASP.NET header dictionary.** It is a sequence of named entries, looked up by name ignoring case. Multiple values of one header are joined with commas, as `StringValues.ToString()` does.

Behaviour of the code worth knowing:

- **Page size has no lower bound.** The setter only caps at 20, so 0 and negative page sizes are stored.
- **Page number has no lower bound.** The page number is never checked either. A page number below 1 gives the first page (`NonPositivePageIsFirst`), and its next-page link points at page p + 1. With `?pageNumber=0` that next page is page 1, which returns the same authors again.
- **Revert accumulates.** With `Revert`, the direction is toggled before every destination property, so the flips accumulate across a multi-property entry. It is not one flip per entry.

## Findings

| source | as written | input that shows it | evidently intended | confidence | as-written member | corrected member |
|---|---|---|---|---|---|---|
| start-end/Library/src/Library.API/Helpers/PagedList.cs:39 | `(pageNumber - 1) * pageSize` is computed in 32-bit `int` arithmetic and wraps around before it reaches `Skip` | pageNumber 107374184, pageSize 20, one-item source: the offset 2147483660 wraps to -2147483636, so `Skip` skips nothing and the page repeats the first item | a page that starts past the end is empty, as it is whenever the offset fits in an `int` | not executed | PagedLists.CreateAsWritten, PagedLists.SkipOverflowCounterexample | PagedLists.Create, PagedLists.PagePastEndEmpty |
