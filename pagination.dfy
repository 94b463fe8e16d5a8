/** Offset/limit paging as the list handlers do it: `page` and `limit` come
    from the query string, `skip = (page - 1) * limit`, at most `limit`
    documents are returned, and the response describes the page with
    `totalPages = ceil(total / limit)`, `hasNext` and `hasPrev`. */
module Pagination {
  import opened Common
  import opened Sorting

  const DefaultPage := 1
  const DefaultLimit := 10

  function Min(a: int, b: int): int {
    if a <= b then a else b
  }

  /** `parseInt(raw) || fallback`: a parameter that is missing or does not
      parse (NaN) is falsy, and so is 0; both give the fallback. */
  function OrDefault(raw: Option<int>, fallback: int): (r: int)
    ensures raw.Some? && raw.value != 0 ==> r == raw.value
    ensures raw.None? || raw.value == 0 ==> r == fallback
  {
    if raw.Some? && raw.value != 0 then raw.value else fallback
  }

  /** The page number a handler works with. */
  function EffectivePage(raw: Option<int>): (r: int)
    ensures r != 0
    ensures raw.None? || raw.value == 0 ==> r == DefaultPage
    ensures raw.Some? && raw.value != 0 ==> r == raw.value
  {
    OrDefault(raw, DefaultPage)
  }

  /** The page size a handler works with. */
  function EffectiveLimit(raw: Option<int>): (r: int)
    ensures r != 0
    ensures raw.None? || raw.value == 0 ==> r == DefaultLimit
    ensures raw.Some? && raw.value != 0 ==> r == raw.value
  {
    OrDefault(raw, DefaultLimit)
  }

  /** The number of documents the pages before `page` hold. */
  function Skip(page: int, limit: int): (r: nat)
    requires page >= 1 && limit >= 1
  {
    MulMonotone(0, page - 1, limit);
    (page - 1) * limit
  }

  /** `Math.ceil(total / limit)`: the fewest pages of `limit` that hold
      `total` documents. */
  function TotalPages(total: nat, limit: int): (r: nat)
    requires limit >= 1
    ensures r * limit >= total
    ensures r == 0 || (r - 1) * limit < total
  {
    var q := (total + limit - 1) / limit;
    assert q * limit <= total + limit - 1 < q * limit + limit;
    q
  }

  /** The `skip(...).limit(...)` window of a listing `s`. */
  function Paginate<T>(s: seq<T>, page: int, limit: int): (r: seq<T>)
    requires page >= 1 && limit >= 1
    ensures |r| <= limit
    ensures |r| == if Skip(page, limit) >= |s| then 0 else Min(limit, |s| - Skip(page, limit))
    ensures forall k :: 0 <= k < |r| ==> r[k] == s[Skip(page, limit) + k]
  {
    var skip := Skip(page, limit);
    if skip >= |s| then [] else s[skip..Min(skip + limit, |s|)]
  }

  /** The `pagination` object of a list response. */
  datatype PageInfo = PageInfo(currentPage: int, totalPages: nat, total: nat, hasNext: bool, hasPrev: bool)

  function Info(page: int, limit: int, total: nat): (r: PageInfo)
    requires page >= 1 && limit >= 1
    ensures r.currentPage == page && r.total == total
    ensures r.totalPages * limit >= total
    ensures r.totalPages == 0 || (r.totalPages - 1) * limit < total
    ensures r.hasNext <==> Skip(page, limit) + limit < total
    ensures r.hasPrev <==> page > 1
  {
    var pages := TotalPages(total, limit);
    HasNextMeansMore(page, limit, total);
    PageInfo(page, pages, total, page < pages, page > 1)
  }

  /** A window of a listing holds elements of the listing, in its order. */
  lemma WindowOfListing<T>(s: seq<T>, page: int, limit: int, key: T -> Key, d: Direction)
    requires page >= 1 && limit >= 1
    ensures forall i :: 0 <= i < |Paginate(s, page, limit)| ==> Paginate(s, page, limit)[i] in s
    ensures SortedBy(s, key, d) ==> SortedBy(Paginate(s, page, limit), key, d)
  {
    var w := Paginate(s, page, limit);
    var skip := Skip(page, limit);
    if SortedBy(s, key, d) {
      forall i, j | 0 <= i < j < |w| ensures InOrder(d, key(w[i]), key(w[j])) {
        assert w[i] == s[skip + i] && w[j] == s[skip + j];
      }
    }
  }

  /** A list response: one page of a listing and its `pagination` object. */
  datatype Page<T> = Page(items: seq<T>, pagination: PageInfo)

  /** Page `page` of the listing `s`, described against the whole of `s`:
      `total` counts every document of the listing, not only this page. */
  function ListPage<T>(s: seq<T>, page: int, limit: int): Page<T>
    requires page >= 1 && limit >= 1
  {
    Page(Paginate(s, page, limit), Info(page, limit, |s|))
  }

  /** `page < totalPages` holds exactly when documents remain beyond the
      current page. */
  lemma HasNextMeansMore(page: int, limit: int, total: nat)
    requires page >= 1 && limit >= 1
    ensures page < TotalPages(total, limit) <==> Skip(page, limit) + limit < total
  {
    var pages := TotalPages(total, limit);
    assert Skip(page, limit) + limit == page * limit;
    if page < pages {
      MulMonotone(page, pages - 1, limit);
    } else {
      MulMonotone(pages, page, limit);
    }
  }

  lemma MulMonotone(a: int, b: int, c: int)
    requires a <= b && c >= 0
    ensures a * c <= b * c
  {
  }

  /** A page within `1..totalPages` holds at least one document; one beyond
      it holds none. */
  lemma {:induction false} PageEmptyIffBeyondLast<T>(s: seq<T>, page: int, limit: int)
    requires page >= 1 && limit >= 1
    ensures |Paginate(s, page, limit)| > 0 <==> page <= TotalPages(|s|, limit)
  {
    var pages := TotalPages(|s|, limit);
    assert Skip(page, limit) == (page - 1) * limit;
    if page <= pages {
      MulMonotone(page - 1, pages - 1, limit);
    } else {
      MulMonotone(pages, page - 1, limit);
    }
  }

  /** The documents seen when a client starts at `page` and follows
      `hasNext` to the last page. */
  function Walk<T>(s: seq<T>, page: int, limit: int): seq<T>
    requires page >= 1 && limit >= 1
    decreases TotalPages(|s|, limit) - page
  {
    Paginate(s, page, limit)
      + if Info(page, limit, |s|).hasNext then Walk(s, page + 1, limit) else []
  }

  lemma {:induction false} WalkFrom<T>(s: seq<T>, page: int, limit: int)
    requires page >= 1 && limit >= 1 && Skip(page, limit) <= |s|
    ensures Walk(s, page, limit) == s[Skip(page, limit)..]
    decreases TotalPages(|s|, limit) - page
  {
    var skip := Skip(page, limit);
    var window := Paginate(s, page, limit);
    if Info(page, limit, |s|).hasNext {
      assert Skip(page + 1, limit) == skip + limit;
      WalkFrom(s, page + 1, limit);
      assert window == s[skip..skip + limit];
      assert s[skip..] == s[skip..skip + limit] + s[skip + limit..];
    } else if skip < |s| {
      assert window == s[skip..];
    } else {
      assert window == [];
    }
  }

  /** Following `hasNext` from the first page returns every document of the
      listing exactly once, in listing order. */
  lemma WalkFromFirstPage<T>(s: seq<T>, limit: int)
    requires limit >= 1
    ensures Walk(s, 1, limit) == s
  {
    WalkFrom(s, 1, limit);
  }

  /** 25 matches with the default page size: three pages; the first has a
      next page and no previous one, the third holds the last 5. */
  lemma TwentyFiveMatches<T>(s: seq<T>)
    requires |s| == 25
    ensures Info(1, DefaultLimit, |s|) == PageInfo(1, 3, 25, true, false)
    ensures Info(3, DefaultLimit, |s|) == PageInfo(3, 3, 25, false, true)
    ensures Paginate(s, 3, DefaultLimit) == s[20..]
  {
    assert TotalPages(25, 10) == 3;
  }
}
