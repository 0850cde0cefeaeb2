/** `LibraryRepository`: the author and book queries and the two insertions, over the two
    tables of the database context held as in-memory sequences. `Guid.NewGuid()` is replaced
    by fresh ids the caller passes in. */
module LibraryRepository {
  import opened Wrappers
  import opened Text
  import opened Sequences
  import opened Entities
  import opened Int32Math
  import opened PagedLists
  import opened ResourceParameters

  /** The genre filter: the author's genre, lower-cased, equals the trimmed, lower-cased genre. */
  predicate GenreMatches(a: Author, genre: string) {
    ToLower(a.genre) == ToLower(Trim(genre))
  }

  /** The search filter: one of genre, first name or last name, lower-cased, equals the trimmed,
      lower-cased query as a whole. */
  predicate SearchMatches(a: Author, searchQuery: string) {
    var q := ToLower(Trim(searchQuery));
    ToLower(a.genre) == q || ToLower(a.firstName) == q || ToLower(a.lastName) == q
  }

  /** The authors both filters keep; a null or blank parameter keeps everybody. */
  predicate Selected(a: Author, genre: Option<string>, searchQuery: Option<string>) {
    && (IsNullOrWhiteSpace(genre) || GenreMatches(a, genre.value))
    && (IsNullOrWhiteSpace(searchQuery) || SearchMatches(a, searchQuery.value))
  }

  /** The collection `GetAuthors` pages: every author ordered by first name then last name,
      narrowed by the genre filter and then by the search filter when they are given. */
  function AuthorsBeforePaging(authors: seq<Author>, genre: Option<string>, searchQuery: Option<string>): (r: seq<Author>)
    ensures SortedBy(r, NameKey)
    ensures forall a :: multiset(r)[a] == if Selected(a, genre, searchQuery) then multiset(authors)[a] else 0
  {
    var ordered := SortBy(authors, NameKey);
    var byGenre := if IsNullOrWhiteSpace(genre) then ordered
                   else Filter(ordered, a => GenreMatches(a, genre.value));
    var bySearch := if IsNullOrWhiteSpace(searchQuery) then byGenre
                    else Filter(byGenre, a => SearchMatches(a, searchQuery.value));
    assert SortedBy(bySearch, NameKey) by {
      if !IsNullOrWhiteSpace(genre) {
        FilterSorted(ordered, a => GenreMatches(a, genre.value), NameKey);
      }
      if !IsNullOrWhiteSpace(searchQuery) {
        FilterSorted(byGenre, a => SearchMatches(a, searchQuery.value), NameKey);
      }
    }
    bySearch
  }

  /** Without a genre and a search query nothing is filtered out. */
  lemma NoFiltersKeepEveryAuthor(authors: seq<Author>, genre: Option<string>, searchQuery: Option<string>)
    requires IsNullOrWhiteSpace(genre) && IsNullOrWhiteSpace(searchQuery)
    ensures multiset(AuthorsBeforePaging(authors, genre, searchQuery)) == multiset(authors)
  {
    var r := AuthorsBeforePaging(authors, genre, searchQuery);
    assert forall a :: multiset(r)[a] == multiset(authors)[a];
  }

  /** White space around the genre does not change what it selects. */
  lemma GenrePaddingIrrelevant(a: Author, w1: string, genre: string, w2: string)
    requires AllWhiteSpace(w1) && AllWhiteSpace(w2)
    ensures GenreMatches(a, w1 + genre + w2) <==> GenreMatches(a, genre)
  {
    TrimPadded(w1, genre, w2);
  }

  /** The letter case of the genre does not change what it selects. */
  lemma GenreCaseIrrelevant(a: Author, genre: string, other: string)
    requires genre == [] || (!IsWhiteSpace(genre[0]) && !IsWhiteSpace(genre[|genre| - 1]))
    requires other == [] || (!IsWhiteSpace(other[0]) && !IsWhiteSpace(other[|other| - 1]))
    requires ToLower(genre) == ToLower(other)
    ensures GenreMatches(a, genre) <==> GenreMatches(a, other)
  {
    TrimUnpadded(genre);
    TrimUnpadded(other);
  }

  /** The search compares whole fields: a query shorter than all three fields never matches,
      so a name is not found by a part of it. */
  lemma SearchIsWholeField(a: Author, searchQuery: string)
    requires |Trim(searchQuery)| < |a.genre| && |Trim(searchQuery)| < |a.firstName| && |Trim(searchQuery)| < |a.lastName|
    ensures !SearchMatches(a, searchQuery)
  {
  }

  /** The `LibraryContext` the repository works on: its author and book tables. */
  class LibraryRepository {
    var authors: seq<Author>
    var books: seq<Book>

    constructor(authors: seq<Author>, books: seq<Book>)
      ensures this.authors == authors && this.books == books
    {
      this.authors := authors;
      this.books := books;
    }

    /** `Authors.Any(a => a.Id == authorId)`: the authors with that id are not none, which
        holds exactly when some author of the table has the id. */
    function AuthorExists(authorId: Guid): (r: bool)
      reads this`authors
      ensures r <==> exists i | 0 <= i < |authors| :: authors[i].id == authorId
    {
      var hasId := (a: Author) => a.id == authorId;
      FilterNone(authors, hasId);
      Filter(authors, hasId) != []
    }

    /** `Authors.FirstOrDefault(a => a.Id == authorId)`: the first author with that id, found
        exactly when `AuthorExists` holds. */
    function GetAuthor(authorId: Guid): (r: Option<Author>)
      reads this`authors
      ensures r.None? <==> !AuthorExists(authorId)
      ensures r.Some? ==> exists k | 0 <= k < |authors| ::
        authors[k] == r.value && r.value.id == authorId && forall j | 0 <= j < k :: authors[j].id != authorId
    {
      FirstWhere(authors, (a: Author) => a.id == authorId)
    }

    /** One page of the ordered, filtered authors: it counts every selected author, echoes the
        requested page, and holds only selected authors of the table. */
    function GetAuthors(parameters: AuthorsResourceParameters): (r: PagedList<Author>)
      reads this, parameters
      requires parameters.pageSize != 0
      ensures r.totalCount == |AuthorsBeforePaging(authors, parameters.genre, parameters.searchQuery)|
      ensures r.currentPage == parameters.pageNumber && r.pageSize == parameters.pageSize
      ensures r.totalPages == CeilDiv(r.totalCount, parameters.pageSize)
      ensures forall i | 0 <= i < |r.items| ::
        r.items[i] in authors && Selected(r.items[i], parameters.genre, parameters.searchQuery)
      ensures parameters.pageNumber >= 1 && parameters.pageSize > 0 ==>
        var all := AuthorsBeforePaging(authors, parameters.genre, parameters.searchQuery);
        r.items == all[PageStart(|all|, parameters.pageNumber, parameters.pageSize)..PageEnd(|all|, parameters.pageNumber, parameters.pageSize)]
      ensures parameters.pageNumber < 1 && parameters.pageSize > 0 ==>
        var all := AuthorsBeforePaging(authors, parameters.genre, parameters.searchQuery);
        r.items == all[..Min(parameters.pageSize, |all|)]
    {
      var all := AuthorsBeforePaging(authors, parameters.genre, parameters.searchQuery);
      var r := Create(all, parameters.pageNumber, parameters.pageSize);
      assert forall i | 0 <= i < |r.items| :: r.items[i] in authors && Selected(r.items[i], parameters.genre, parameters.searchQuery) by {
        forall i | 0 <= i < |r.items| ensures r.items[i] in authors && Selected(r.items[i], parameters.genre, parameters.searchQuery) {
          assert multiset(all)[r.items[i]] > 0;
        }
      }
      r
    }

    /** The page built with the offset exactly as the source computes it, in 32-bit arithmetic,
        is the page `GetAuthors` returns whenever `(PageNumber - 1) * PageSize` fits in an `int`;
        beyond that the two differ (see `SkipOverflowCounterexample`). */
    lemma PagingAsWritten(parameters: AuthorsResourceParameters)
      requires parameters.pageSize != 0
      requires MinInt32 <= (parameters.pageNumber - 1) * parameters.pageSize <= MaxInt32
      ensures CreateAsWritten(AuthorsBeforePaging(authors, parameters.genre, parameters.searchQuery),
        parameters.pageNumber, parameters.pageSize) == GetAuthors(parameters)
    {
    }

    /** `Authors.Where(a => authorIds.Contains(a.Id)).OrderBy(FirstName).ThenBy(LastName)`:
        exactly the authors whose id is listed, each as often as in the table, ordered by name. */
    function GetAuthorsByIds(authorIds: seq<Guid>): (r: seq<Author>)
      reads this
      ensures SortedBy(r, NameKey)
      ensures forall a :: multiset(r)[a] == if a.id in authorIds then multiset(authors)[a] else 0
    {
      SortBy(Filter(authors, (a: Author) => a.id in authorIds), NameKey)
    }

    /** `Books.FirstOrDefault(b => b.AuthorId == authorId && b.Id == bookId)`: a book is found
        only when both ids match, is found whenever such a book exists, and is the first such
        book of the table. */
    function GetBookForAuthor(authorId: Guid, bookId: Guid): (r: Option<Book>)
      reads this
      ensures r.Some? ==> r.value in books && r.value.authorId == authorId && r.value.id == bookId
      ensures r.Some? ==> exists k | 0 <= k < |books| ::
        books[k] == r.value && forall j | 0 <= j < k :: !(books[j].authorId == authorId && books[j].id == bookId)
      ensures r.None? <==> forall i | 0 <= i < |books| :: !(books[i].authorId == authorId && books[i].id == bookId)
    {
      FirstWhere(books, (b: Book) => b.authorId == authorId && b.id == bookId)
    }

    /** `Books.Where(b => b.AuthorId == authorId).OrderBy(b => b.Title)`: exactly that author's
        books, ordered by title. */
    function GetBooksForAuthor(authorId: Guid): (r: seq<Book>)
      reads this
      ensures SortedBy(r, TitleKey)
      ensures forall b :: multiset(r)[b] == if b.authorId == authorId then multiset(books)[b] else 0
    {
      SortBy(Filter(books, (b: Book) => b.authorId == authorId), TitleKey)
    }

    /** Stores a new author under `newAuthorId` and gives each of its books, in order, the
        next id of `newBookIds`; the books join the book table under the new author. */
    method AddAuthor(author: Author, authorBooks: seq<Book>, newAuthorId: Guid, newBookIds: seq<Guid>)
      requires |newBookIds| == |authorBooks|
      modifies this
      ensures authors == old(authors) + [author.(id := newAuthorId)]
      ensures books == old(books) + seq(|authorBooks|, i requires 0 <= i < |authorBooks| =>
        authorBooks[i].(id := newBookIds[i], authorId := newAuthorId))
      ensures AuthorExists(newAuthorId)
    {
      var added := author.(id := newAuthorId);
      authors := authors + [added];
      assert authors[|authors| - 1].id == newAuthorId;
      var stored: seq<Book> := [];
      var i := 0;
      while i < |authorBooks|
        invariant 0 <= i <= |authorBooks|
        invariant stored == seq(i, k requires 0 <= k < i => authorBooks[k].(id := newBookIds[k], authorId := newAuthorId))
      {
        stored := stored + [authorBooks[i].(id := newBookIds[i], authorId := newAuthorId)];
        i := i + 1;
      }
      books := books + stored;
    }

    /** Does nothing for an unknown author; otherwise keeps a book's id unless it is
        `Guid.Empty`, in which case the fresh id is used, and appends the book to the author's
        books. */
    method AddBookForAuthor(authorId: Guid, book: Book, freshId: Guid)
      requires freshId != EmptyGuid
      modifies this`books
      ensures !AuthorExists(authorId) ==> books == old(books)
      ensures AuthorExists(authorId) ==>
        var id := if book.id == EmptyGuid then freshId else book.id;
        books == old(books) + [book.(id := id, authorId := authorId)]
      ensures AuthorExists(authorId) ==> GetBookForAuthor(authorId, books[|books| - 1].id).Some?
      ensures |books| > |old(books)| ==> books[|books| - 1].id != EmptyGuid
    {
      var author := GetAuthor(authorId);
      if author.Some? {
        var stored := book;
        if stored.id == EmptyGuid {
          stored := stored.(id := freshId);
        }
        books := books + [stored.(authorId := authorId)];
        assert books[|books| - 1].authorId == authorId;
      }
    }
  }
}
