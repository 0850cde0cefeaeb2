/** `PagedList<T>`: one page of a sequence plus the paging metadata. A paged list is never
    changed after it is built, so it is a value here; `Create` is the only way to build one. */
module PagedLists {
  import opened Int32Math

  datatype PagedList<T> = PagedList(
    items: seq<T>,
    currentPage: Int32,
    totalPages: int,
    pageSize: Int32,
    totalCount: nat)
  {
    predicate HasPrevious() {
      currentPage > 1
    }

    predicate HasNext() {
      currentPage < totalPages
    }
  }

  function Min(a: int, b: int): int {
    if a <= b then a else b
  }

  /** LINQ `Skip(count)`: a count below zero skips nothing. */
  function Skip<T>(s: seq<T>, count: int): (r: seq<T>)
    ensures forall i | 0 <= i < |r| :: r[i] in s
  {
    if count <= 0 then s else if count >= |s| then [] else s[count..]
  }

  /** LINQ `Take(count)`: a count below zero takes nothing. */
  function Take<T>(s: seq<T>, count: int): (r: seq<T>)
    ensures |r| <= if count > 0 then count else 0
    ensures forall i | 0 <= i < |r| :: r[i] in s
  {
    if count <= 0 then [] else if count >= |s| then s else s[..count]
  }

  /** The exact ceiling of `n / d`, which `Math.Ceiling(count / (double) pageSize)` computes
      (the quotient of two 32-bit integers never rounds across an integer in a double). */
  function CeilDiv(n: nat, d: int): (r: int)
    requires d != 0
    ensures d > 0 ==> (r - 1) * d < n <= r * d && r >= 0 && (n == 0 ==> r == 0)
    ensures d < 0 ==> r * d <= n < (r - 1) * d
  {
    if d > 0 then
      var q := (n + d - 1) / d;
      assert n + d - 1 == q * d + (n + d - 1) % d;
      q
    else
      var q := n / -d;
      assert n == q * -d + n % -d;
      assert (-q - 1) * d == q * -d + -d;
      -q
  }

  /** Where page `pageNumber` starts in a source of `count` items: `(pageNumber - 1) * pageSize`
      elements are skipped, but never more than there are. */
  function PageStart(count: nat, pageNumber: int, pageSize: int): (r: nat)
    requires pageNumber >= 1 && pageSize > 0
    ensures r <= count
  {
    assert (pageNumber - 1) * pageSize >= 0;
    Min((pageNumber - 1) * pageSize, count)
  }

  /** Where page `pageNumber` ends: after `pageNumber * pageSize` elements, or at the end. */
  function PageEnd(count: nat, pageNumber: int, pageSize: int): (r: nat)
    requires pageNumber >= 1 && pageSize > 0
    ensures PageStart(count, pageNumber, pageSize) <= r <= count
  {
    assert pageNumber * pageSize == (pageNumber - 1) * pageSize + pageSize;
    Min(pageNumber * pageSize, count)
  }

  /** `source.Skip((pageNumber - 1) * pageSize).Take(pageSize)` with exact arithmetic. */
  function PageItems<T>(source: seq<T>, pageNumber: int, pageSize: int): seq<T> {
    Take(Skip(source, (pageNumber - 1) * pageSize), pageSize)
  }

  lemma PageItemsSlice<T>(source: seq<T>, pageNumber: int, pageSize: int)
    requires pageNumber >= 1 && pageSize > 0
    ensures PageItems(source, pageNumber, pageSize)
         == source[PageStart(|source|, pageNumber, pageSize)..PageEnd(|source|, pageNumber, pageSize)]
  {
    var start := (pageNumber - 1) * pageSize;
    assert start + pageSize == pageNumber * pageSize;
    assert 0 <= start;
  }

  /** `PagedList<T>.Create`: counts the whole source, then keeps the requested page. */
  function Create<T>(source: seq<T>, pageNumber: Int32, pageSize: Int32): (r: PagedList<T>)
    requires pageSize != 0
    ensures r.totalCount == |source| && r.currentPage == pageNumber && r.pageSize == pageSize
    ensures |r.items| <= if pageSize > 0 then pageSize else 0
    ensures forall i | 0 <= i < |r.items| :: r.items[i] in source
    ensures pageNumber >= 1 && pageSize > 0 ==>
      r.items == source[PageStart(|source|, pageNumber, pageSize)..PageEnd(|source|, pageNumber, pageSize)]
    ensures pageSize > 0 ==> (r.totalPages - 1) * pageSize < |source| <= r.totalPages * pageSize
    ensures pageNumber < 1 && pageSize > 0 ==> r.items == source[..Min(pageSize, |source|)]
  {
    var items := PageItems(source, pageNumber, pageSize);
    assert pageNumber < 1 && pageSize > 0 ==> (pageNumber - 1) * pageSize <= 0 by {
      if pageNumber < 1 && pageSize > 0 {
        MulMonotone(pageNumber - 1, 0, pageSize);
      }
    }
    assert pageNumber >= 1 && pageSize > 0 ==>
      items == source[PageStart(|source|, pageNumber, pageSize)..PageEnd(|source|, pageNumber, pageSize)] by {
      if pageNumber >= 1 && pageSize > 0 {
        PageItemsSlice(source, pageNumber, pageSize);
      }
    }
    PagedList(items, pageNumber, CeilDiv(|source|, pageSize), pageSize, |source|)
  }

  lemma MulMonotone(a: int, b: int, s: int)
    requires a <= b && s > 0
    ensures a * s <= b * s
  {
    assert b * s - a * s == (b - a) * s;
  }

  /** A full page holds `pageSize` items, the last page the remainder, a page past the end none. */
  lemma PageLength<T>(source: seq<T>, pageNumber: Int32, pageSize: Int32)
    requires pageNumber >= 1 && pageSize > 0
    ensures var n := |Create(source, pageNumber, pageSize).items|;
      && (pageNumber * pageSize <= |source| ==> n == pageSize)
      && ((pageNumber - 1) * pageSize <= |source| <= pageNumber * pageSize ==>
            n == |source| - (pageNumber - 1) * pageSize)
      && (|source| <= (pageNumber - 1) * pageSize ==> n == 0)
  {
    assert pageNumber * pageSize == (pageNumber - 1) * pageSize + pageSize;
  }

  /** `HasPrevious` holds exactly on the pages after the first. */
  lemma HasPreviousIff<T>(source: seq<T>, pageNumber: Int32, pageSize: Int32)
    requires pageSize > 0
    ensures Create(source, pageNumber, pageSize).HasPrevious() <==> pageNumber >= 2
  {
  }

  /** Page `pageNumber` is followed by another page exactly when some of the `count` items lie
      beyond it. */
  lemma BeforeLastPage(count: nat, pageNumber: int, pageSize: int)
    requires pageNumber >= 1 && pageSize > 0
    ensures pageNumber < CeilDiv(count, pageSize) <==> pageNumber * pageSize < count
  {
    var t := CeilDiv(count, pageSize);
    if pageNumber < t {
      MulMonotone(pageNumber, t - 1, pageSize);
    } else {
      MulMonotone(t, pageNumber, pageSize);
    }
  }

  /** `HasNext` holds exactly when some item lies beyond the current page. */
  lemma HasNextIff<T>(source: seq<T>, pageNumber: Int32, pageSize: Int32)
    requires pageNumber >= 1 && pageSize > 0
    ensures Create(source, pageNumber, pageSize).HasNext() <==> pageNumber * pageSize < |source|
  {
    BeforeLastPage(|source|, pageNumber, pageSize);
  }

  /** When `count` fits in an `int`, so does the number of the page after any page that is
      followed by one: the next-page number never wraps around. */
  lemma {:induction false} NextPageNumberFits(count: nat, pageNumber: int, pageSize: int)
    requires pageSize != 0 && count <= MaxInt32
    requires pageNumber < CeilDiv(count, pageSize)
    ensures pageNumber + 1 <= MaxInt32
  {
    var t := CeilDiv(count, pageSize);
    if pageSize > 0 {
      if t - 1 >= count {
        MulMonotone(count, t - 1, pageSize);
        if count > 0 {
          MulMonotone(1, pageSize, count);
        }
      }
    }
  }

  /** An empty source has no pages at all; only a page number below zero still reports a
      next page, because `HasNext` compares against a total of zero. */
  lemma EmptySource<T>(source: seq<T>, pageNumber: Int32, pageSize: Int32)
    requires source == [] && pageSize > 0
    ensures var r := Create(source, pageNumber, pageSize);
      r.items == [] && r.totalCount == 0 && r.totalPages == 0 && (r.HasNext() <==> pageNumber < 0)
  {
  }

  /** Pages `1..k` of size `pageSize`, concatenated. */
  function Pages<T>(source: seq<T>, pageSize: int, k: nat): seq<T> {
    if k == 0 then [] else Pages(source, pageSize, k - 1) + PageItems(source, k, pageSize)
  }

  lemma PrefixExtend<T>(s: seq<T>, a: nat, b: nat)
    requires a <= b <= |s|
    ensures s[..a] + s[a..b] == s[..b]
  {
  }

  /** Consecutive pages neither skip nor repeat an item: the first `k` pages are a prefix. */
  lemma {:induction false} PagesArePrefix<T>(source: seq<T>, pageSize: int, k: nat)
    requires pageSize > 0
    ensures Pages(source, pageSize, k) == source[..Min(k * pageSize, |source|)]
  {
    if k > 0 {
      var a := PageStart(|source|, k, pageSize);
      var b := PageEnd(|source|, k, pageSize);
      assert Pages(source, pageSize, k - 1) == source[..a] by {
        PagesArePrefix(source, pageSize, k - 1);
      }
      assert PageItems(source, k, pageSize) == source[a..b] by {
        PageItemsSlice(source, k, pageSize);
      }
      PrefixExtend(source, a, b);
    }
  }

  /** Reading every page from 1 to `TotalPages` gives back the whole source, in order. */
  lemma AllPagesCoverSource<T>(source: seq<T>, pageSize: Int32)
    requires pageSize > 0
    ensures var t := Create(source, 1, pageSize).totalPages;
      t >= 0 && Pages(source, pageSize, t) == source
  {
    var t := Create(source, 1, pageSize).totalPages;
    PagesArePrefix(source, pageSize, t);
  }

  /** A product of two integers that fits in an `int` has no factor below `int.MinValue`
      (the other factor being non-zero). */
  lemma FactorFits(a: int, b: int)
    requires b != 0
    ensures MinInt32 <= a * b <= MaxInt32 ==> MinInt32 <= a
  {
    if a < MinInt32 {
      if b > 0 {
        MulMonotone(1, b, -a);
      } else {
        MulMonotone(1, -b, -a);
      }
    }
  }

  /** `Create` exactly as written: `(pageNumber - 1) * pageSize` is computed in unchecked
      32-bit arithmetic before it reaches `Skip`. */
  function CreateAsWritten<T>(source: seq<T>, pageNumber: Int32, pageSize: Int32): (r: PagedList<T>)
    requires pageSize != 0
    ensures r.totalPages == Create(source, pageNumber, pageSize).totalPages
    ensures MinInt32 <= (pageNumber - 1) * pageSize <= MaxInt32 ==> r == Create(source, pageNumber, pageSize)
  {
    var skip := Wrap32(Wrap32(pageNumber - 1) * pageSize);
    assert MinInt32 <= (pageNumber - 1) * pageSize <= MaxInt32 ==> skip == (pageNumber - 1) * pageSize by {
      FactorFits(pageNumber - 1, pageSize);
    }
    PagedList(Take(Skip(source, skip), pageSize), pageNumber, CeilDiv(|source|, pageSize), pageSize, |source|)
  }

  /** A page far past the end is empty; the as-written offset wraps to a negative number, so
      `Skip` skips nothing and the far page repeats the first one. */
  lemma SkipOverflowCounterexample()
    ensures var source := [7];
      && CreateAsWritten(source, 107374184, 20).items == [7]
      && Create(source, 107374184, 20).items == []
  {
    assert Wrap32(107374183 * 20) == 2147483660 - 0x1_0000_0000;
  }

  /** The intended behaviour, which `Create` has: every page that starts past the end is empty. */
  lemma PagePastEndEmpty<T>(source: seq<T>, pageNumber: Int32, pageSize: Int32)
    requires pageNumber >= 1 && pageSize > 0 && (pageNumber - 1) * pageSize >= |source|
    ensures Create(source, pageNumber, pageSize).items == []
  {
  }

  /** The page number is never checked: any page number below 1 gives the first page again. */
  lemma NonPositivePageIsFirst<T>(source: seq<T>, pageNumber: Int32, pageSize: Int32)
    requires pageNumber < 1 && pageSize > 0
    ensures Create(source, pageNumber, pageSize).items == Create(source, 1, pageSize).items
  {
    PageItemsSlice(source, 1, pageSize);
  }

  /** Twenty-five authors in pages of ten: page two holds items 10..19, with pages on both sides. */
  lemma SecondOfThreePages<T>(source: seq<T>)
    requires |source| == 25
    ensures var r := Create(source, 2, 10);
      r.items == source[10..20] && r.totalPages == 3 && r.HasPrevious() && r.HasNext()
  {
    HasNextIff(source, 2, 10);
  }
}
