/** Pagination of the table: a fixed page size, the page count, the slice of
    the filtered rows shown for a page and the clamp applied to page
    requests. */
module Paging {
  import opened JsArray

  /** Rows per page. */
  const ItemsPerPage: nat := 15

  /** `Math.ceil(n / ItemsPerPage)` on exact integers: the least number of
      pages that hold `n` rows. */
  function TotalPages(n: nat): (r: nat)
    ensures n <= r * ItemsPerPage
    ensures 0 < r ==> (r - 1) * ItemsPerPage < n
    ensures r == 0 <==> n == 0
  {
    (n + ItemsPerPage - 1) / ItemsPerPage
  }

  /** The index of the first row of a page: the number of rows on the pages
      before it, so pages start at multiples of `ItemsPerPage`. */
  function PageStart(page: int): (r: int)
    ensures 1 <= page ==> 0 <= r
    ensures r % ItemsPerPage == 0 && r / ItemsPerPage == page - 1
  {
    (page - 1) * ItemsPerPage
  }

  /** The rows shown for `page`: `filtered.slice(startIdx, startIdx + ItemsPerPage)`. */
  function PageOf<T>(filtered: seq<T>, page: int): (r: seq<T>)
    ensures |r| <= ItemsPerPage
  {
    Slice(filtered, PageStart(page), PageStart(page) + ItemsPerPage)
  }

  /** For a page number of at least 1 the page is the contiguous run of rows
      from its start index up to the next page's start or the end of the
      list, and it is empty once the start index reaches the end. */
  lemma PageShape<T>(filtered: seq<T>, page: int)
    requires 1 <= page
    ensures PageStart(page) < |filtered| ==>
              PageOf(filtered, page) == filtered[PageStart(page)..if page * ItemsPerPage < |filtered| then page * ItemsPerPage else |filtered|]
    ensures |filtered| <= PageStart(page) ==> PageOf(filtered, page) == []
  {
    var r := PageOf(filtered, page);
    var start := PageStart(page);
    if start < |filtered| {
      var end := if page * ItemsPerPage < |filtered| then page * ItemsPerPage else |filtered|;
      assert |r| == end - start;
      forall i | 0 <= i < |r| ensures r[i] == filtered[start..end][i] { }
    }
  }

  /** Every row is shown on exactly the page its index falls in, at the
      position its index has within that page. */
  lemma PageLocates<T>(filtered: seq<T>, k: int)
    requires 0 <= k < |filtered|
    ensures k % ItemsPerPage < |PageOf(filtered, k / ItemsPerPage + 1)|
    ensures PageOf(filtered, k / ItemsPerPage + 1)[k % ItemsPerPage] == filtered[k]
  {
    var page := k / ItemsPerPage + 1;
    assert PageStart(page) + k % ItemsPerPage == k;
    PageShape(filtered, page);
  }

  /** The last page holds what is left after the full pages: between 1 and
      `ItemsPerPage` rows. */
  lemma LastPageSize<T>(filtered: seq<T>)
    requires 0 < |filtered|
    ensures |PageOf(filtered, TotalPages(|filtered|))| == |filtered| - ItemsPerPage * (TotalPages(|filtered|) - 1)
    ensures 1 <= |PageOf(filtered, TotalPages(|filtered|))| <= ItemsPerPage
  {
    PageShape(filtered, TotalPages(|filtered|));
  }

  /** Pages past the page count of a list are empty. */
  lemma PagesBeyondEmpty<T>(filtered: seq<T>, page: int)
    requires TotalPages(|filtered|) < page
    ensures PageOf(filtered, page) == []
  {
    PageShape(filtered, page);
  }

  /** `Math.max(1, Math.min(page, totalPages))`. */
  function Clamp(page: int, totalPages: int): (r: int)
    ensures 1 <= r <= if totalPages < 1 then 1 else totalPages
    ensures 1 <= page <= totalPages ==> r == page
    ensures page < 1 ==> r == 1
    ensures totalPages < page ==> r == if totalPages < 1 then 1 else totalPages
  {
    var m := if page < totalPages then page else totalPages;
    if 1 < m then m else 1
  }
}
