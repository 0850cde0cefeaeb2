/** The query-string parameters of the author collection (`AuthorsResourceParameters`). */
module ResourceParameters {
  import opened Wrappers
  import opened Int32Math

  const MaxPageSize: Int32 := 20
  const DefaultPageNumber: Int32 := 1
  const DefaultPageSize: Int32 := 10

  /** What the `PageSize` setter stores for `value`: at most `MaxPageSize`, and anything not
      above it (zero and negatives included) unchanged. */
  function ClampPageSize(value: Int32): (r: Int32)
    ensures r <= MaxPageSize
    ensures value <= MaxPageSize ==> r == value
    ensures value > MaxPageSize ==> r == MaxPageSize
  {
    if value > MaxPageSize then MaxPageSize else value
  }

  /** Storing a stored value again changes nothing, so setting the same size twice is setting it once. */
  lemma ClampPageSizeIdempotent(value: Int32)
    ensures ClampPageSize(ClampPageSize(value)) == ClampPageSize(value)
  {
  }

  lemma {:induction false} WrappedProduct(a: int, b: int)
    ensures (a * Wrap32(b) - a * b) % 0x1_0000_0000 == 0
  {
    var k := (Wrap32(b) - b) / 0x1_0000_0000;
    assert Wrap32(b) - b == k * 0x1_0000_0000;
    assert a * Wrap32(b) - a * b == (a * k) * 0x1_0000_0000;
  }

  lemma {:induction false} CongruentTrans(x: int, y: int, z: int)
    requires (x - y) % 0x1_0000_0000 == 0 && (y - z) % 0x1_0000_0000 == 0
    ensures (x - z) % 0x1_0000_0000 == 0
  {
    var k1 := (x - y) / 0x1_0000_0000;
    var k2 := (y - z) / 0x1_0000_0000;
    assert x - z == (k1 + k2) * 0x1_0000_0000;
  }

  class AuthorsResourceParameters {
    var pageNumber: Int32
    /** The backing field `_pageSize`. */
    var pageSize: Int32
    var genre: Option<string>
    var searchQuery: Option<string>
    var fields: Option<string>
    var orderBy: Option<string>

    constructor()
      ensures pageNumber == DefaultPageNumber && pageSize == DefaultPageSize
      ensures genre.None? && searchQuery.None? && fields.None? && orderBy.None?
    {
      pageNumber := DefaultPageNumber;
      pageSize := DefaultPageSize;
      genre, searchQuery, fields, orderBy := None, None, None, None;
    }

    /** The `PageSize` setter. */
    method SetPageSize(value: Int32)
      modifies this`pageSize
      ensures pageSize == ClampPageSize(value)
      ensures pageNumber == old(pageNumber) && genre == old(genre) && searchQuery == old(searchQuery)
      ensures fields == old(fields) && orderBy == old(orderBy)
    {
      pageSize := ClampPageSize(value);
    }

    method SetPageNumber(value: Int32)
      modifies this`pageNumber
      ensures pageNumber == value && pageSize == old(pageSize)
    {
      pageNumber := value;
    }

    method SetGenre(value: Option<string>)
      modifies this`genre
      ensures genre == value && pageSize == old(pageSize)
    {
      genre := value;
    }

    method SetSearchQuery(value: Option<string>)
      modifies this`searchQuery
      ensures searchQuery == value && pageSize == old(pageSize)
    {
      searchQuery := value;
    }

    method SetFields(value: Option<string>)
      modifies this`fields
      ensures fields == value && pageSize == old(pageSize)
    {
      fields := value;
    }

    method SetOrderBy(value: Option<string>)
      modifies this`orderBy
      ensures orderBy == value && pageSize == old(pageSize)
    {
      orderBy := value;
    }

    /** `PageSize * (PageNumber - 1)` in unchecked 32-bit arithmetic: the exact product
        whenever it fits, and congruent to it modulo 2^32 always. */
    function AuthorsToSkip(): (r: Int32)
      reads this
      ensures (r - pageSize * (pageNumber - 1)) % 0x1_0000_0000 == 0
      ensures MinInt32 <= pageSize * (pageNumber - 1) <= MaxInt32 ==> r == pageSize * (pageNumber - 1)
    {
      var product := pageSize * Wrap32(pageNumber - 1);
      var r := Wrap32(product);
      assert (r - pageSize * (pageNumber - 1)) % 0x1_0000_0000 == 0 by {
        WrappedProduct(pageSize, pageNumber - 1);
        CongruentTrans(r, product, pageSize * (pageNumber - 1));
      }
      r
    }
  }
}
