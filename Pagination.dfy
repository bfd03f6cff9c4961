/** The `paginate` helper: page metadata computed with integer arithmetic and
    the page's items taken with a Python slice of the collection's values. */
module Pagination {

  /** The page envelope without the `support` block. */
  datatype Page<T> = Page(page: int, perPage: int, total: nat, totalPages: int, data: seq<T>)

  /** The number of items on each page of the list endpoints. */
  const PerPage: int := 6

  function Min(a: int, b: int): int
  {
    if a <= b then a else b
  }

  function Max(a: int, b: int): int
  {
    if a <= b then b else a
  }

  /** Where a Python slice bound lands in a sequence of length n: a negative bound
      counts from the end, and the result is clamped to 0..n. */
  function SliceBound(i: int, n: nat): (k: nat)
    ensures k <= n
    ensures 0 <= i ==> k == Min(i, n)
    ensures i < 0 ==> k == Max(i + n, 0)
  {
    if i < 0 then (if i + n < 0 then 0 else i + n) else if i > n then n else i
  }

  /** Python's `s[start:end]`: empty when the clamped bounds cross. */
  function Slice<T>(s: seq<T>, start: int, end: int): (r: seq<T>)
    ensures |r| == Max(SliceBound(end, |s|) - SliceBound(start, |s|), 0)
    ensures forall i :: 0 <= i < |r| ==> r[i] == s[SliceBound(start, |s|) + i]
  {
    var lo, hi := SliceBound(start, |s|), SliceBound(end, |s|);
    if lo < hi then s[lo..hi] else []
  }

  /** With non-negative bounds a slice is the sub-sequence between the clamped bounds. */
  lemma SliceOfNatural<T>(s: seq<T>, start: int, end: int)
    requires 0 <= start <= end
    ensures Slice(s, start, end) == s[Min(start, |s|)..Min(end, |s|)]
  {
  }

  /** A slice between bounds len apart holds at most len items. */
  lemma SliceAtMost<T>(s: seq<T>, start: int, len: int)
    requires len >= 0
    ensures |Slice(s, start, start + len)| <= len
  {
  }

  /** `(total + per_page - 1) // per_page`; Python's floor division agrees with
      Dafny's for a positive divisor. */
  function TotalPages(total: nat, perPage: int): (t: int)
    requires perPage >= 1
    ensures 0 <= t <= total
    ensures total > 0 ==> t >= 1
  {
    QuotientBounds(total, perPage);
    (total + perPage - 1) / perPage
  }

  lemma QuotientBounds(total: nat, perPage: int)
    requires perPage >= 1
    ensures var t := (total + perPage - 1) / perPage;
      0 <= t <= total && (total > 0 ==> t >= 1)
  {
    var n := total + perPage - 1;
    var t, m := n / perPage, n % perPage;
    assert n == t * perPage + m && 0 <= m < perPage;
    if t < 0 {
      MulMonotone(t, -1, perPage);
      assert false;
    }
    if t > total {
      MulMonotone(total + 1, t, perPage);
      MulMonotone(1, perPage, total);
      assert false;
    }
    if total > 0 && t == 0 {
      assert false;
    }
  }

  /** The index of the first item of a page. */
  function PageStart(page: int, perPage: int): (start: int)
    requires perPage >= 1
    ensures page >= 1 ==> start >= 0
  {
    assert page >= 1 ==> (page - 1) * perPage >= 0 by {
      if page >= 1 {
        MulMonotone(0, page - 1, perPage);
      }
    }
    (page - 1) * perPage
  }

  lemma PageStartFacts(page: int, perPage: int)
    requires perPage >= 1
    ensures PageStart(page + 1, perPage) == PageStart(page, perPage) + perPage
    ensures PageStart(page + 1, perPage) == page * perPage
  {
    MulStep(page - 1, perPage);
  }

  /** `items[start:end]` for the page: the slice from (page - 1) * per_page, one
      page long. */
  function PageData<T>(items: seq<T>, page: int, perPage: int): (data: seq<T>)
    requires perPage >= 1
    ensures |data| <= perPage
    ensures page >= 1 ==>
      data == items[Min(PageStart(page, perPage), |items|)..Min(PageStart(page, perPage) + perPage, |items|)]
  {
    PageSlice(items, page, perPage);
    Slice(items, PageStart(page, perPage), PageStart(page, perPage) + perPage)
  }

  lemma PageSlice<T>(items: seq<T>, page: int, perPage: int)
    requires perPage >= 1
    ensures var data := Slice(items, PageStart(page, perPage), PageStart(page, perPage) + perPage);
      |data| <= perPage &&
      (page >= 1 ==>
        data == items[Min(PageStart(page, perPage), |items|)..Min(PageStart(page, perPage) + perPage, |items|)])
  {
    var start := PageStart(page, perPage);
    PageStartFacts(page, perPage);
    SliceAtMost(items, start, perPage);
    if page >= 1 {
      SliceOfNatural(items, start, start + perPage);
    }
  }

  /** `paginate(items, page, per_page)` over the values of a table in iteration order. */
  function Paginate<T>(items: seq<T>, page: int, perPage: int): (r: Page<T>)
    requires perPage >= 1
    ensures r.page == page && r.perPage == perPage && r.total == |items|
    ensures r.totalPages == TotalPages(|items|, perPage)
    ensures |r.data| <= perPage
    ensures page >= 1 ==>
      r.data == items[Min(PageStart(page, perPage), |items|)..Min(PageStart(page, perPage) + perPage, |items|)]
  {
    Page(page, perPage, |items|, TotalPages(|items|, perPage), PageData(items, page, perPage))
  }

  /** The page count is the ceiling of total / per_page: the least t with
      t * per_page >= total. */
  lemma TotalPagesIsCeiling(total: nat, perPage: int)
    requires perPage >= 1
    ensures var t := TotalPages(total, perPage);
      t >= 0 && (t - 1) * perPage < total <= t * perPage
    ensures total == 0 <==> TotalPages(total, perPage) == 0
  {
    var n := total + perPage - 1;
    var t := n / perPage;
    var r := n % perPage;
    assert n == t * perPage + r && 0 <= r < perPage;
    assert (t - 1) * perPage == t * perPage - perPage;
  }

  /** Any t that satisfies the ceiling bounds is the page count. */
  lemma CeilingIsUnique(total: nat, perPage: int, t: int)
    requires perPage >= 1
    requires (t - 1) * perPage < total <= t * perPage
    ensures t == TotalPages(total, perPage)
  {
    var c := TotalPages(total, perPage);
    TotalPagesIsCeiling(total, perPage);
    if t < c {
      MulMonotone(t, c - 1, perPage);
      assert false;
    } else if t > c {
      MulMonotone(c, t - 1, perPage);
      assert false;
    }
  }

  lemma MulStep(a: int, k: int)
    ensures (a + 1) * k == a * k + k
  {
  }

  lemma MulMonotone(a: int, b: int, k: int)
    requires a <= b && k >= 0
    ensures a * k <= b * k
  {
    assert b * k == a * k + (b - a) * k;
  }

  lemma PageStartMonotone(a: int, b: int, perPage: int)
    requires a <= b && perPage >= 1
    ensures PageStart(a, perPage) <= PageStart(b, perPage)
  {
    MulMonotone(a - 1, b - 1, perPage);
  }

  /** A page in 1..total_pages is non-empty and holds a full page or the rest of
      the items; a page past the last one is empty. */
  lemma PageInRange<T>(items: seq<T>, page: int, perPage: int)
    requires perPage >= 1 && page >= 1
    ensures var r := Paginate(items, page, perPage);
      (page <= r.totalPages <==> r.data != []) &&
      (page <= r.totalPages ==> |r.data| == Min(perPage, |items| - (page - 1) * perPage))
  {
    var t := TotalPages(|items|, perPage);
    TotalPagesIsCeiling(|items|, perPage);
    PageStartFacts(page, perPage);
    PageStartFacts(t, perPage);
    if page <= t {
      PageStartMonotone(page, t, perPage);
    } else {
      PageStartMonotone(t + 1, page, perPage);
    }
  }

  /** The page count is the quotient, plus one when there is a remainder. */
  lemma TotalPagesByRemainder(total: nat, perPage: int)
    requires perPage >= 1
    ensures TotalPages(total, perPage) == total / perPage + (if total % perPage == 0 then 0 else 1)
  {
    var q, m := total / perPage, total % perPage;
    assert total == q * perPage + m && 0 <= m < perPage;
    MulStep(q - 1, perPage);
    MulStep(q, perPage);
    if m == 0 {
      CeilingIsUnique(total, perPage, q);
    } else {
      CeilingIsUnique(total, perPage, q + 1);
    }
  }

  /** The last page holds total % per_page items, or a full page when that is 0. */
  lemma LastPageSize<T>(items: seq<T>, perPage: int)
    requires perPage >= 1 && |items| > 0
    ensures var t := TotalPages(|items|, perPage);
      |Paginate(items, t, perPage).data|
        == if |items| % perPage == 0 then perPage else |items| % perPage
  {
    var total := |items|;
    var t := TotalPages(total, perPage);
    var q, m := total / perPage, total % perPage;
    TotalPagesIsCeiling(total, perPage);
    TotalPagesByRemainder(total, perPage);
    PageInRange(items, t, perPage);
    assert total == q * perPage + m;
    assert (t - 1) * perPage == total - (if m == 0 then perPage else m) by {
      MulStep(q - 1, perPage);
    }
  }

  /** The items of pages 1..k, in page order. */
  function PagesUpTo<T>(items: seq<T>, perPage: int, k: nat): seq<T>
    requires perPage >= 1
  {
    if k == 0 then [] else PagesUpTo(items, perPage, k - 1) + Paginate(items, k, perPage).data
  }

  /** Pages 1..k together are the first k * per_page items (page k + 1 starts
      at k * per_page). */
  lemma {:induction false} PagesUpToIsPrefix<T>(items: seq<T>, perPage: int, k: nat)
    requires perPage >= 1
    ensures PagesUpTo(items, perPage, k) == items[..Min(PageStart(k + 1, perPage), |items|)]
  {
    if k > 0 {
      PagesUpToIsPrefix(items, perPage, k - 1);
      PageStartFacts(k, perPage);
      var a, b := Min(PageStart(k, perPage), |items|), Min(PageStart(k + 1, perPage), |items|);
      PrefixThenSlice(items, a, b);
    }
  }

  /** A prefix followed by the slice after it is the longer prefix. */
  lemma PrefixThenSlice<T>(s: seq<T>, a: int, b: int)
    requires 0 <= a <= b <= |s|
    ensures s[..a] + s[a..b] == s[..b]
  {
  }

  /** Walking pages 1..total_pages yields every item exactly once and in order, so
      the page sizes add up to total. */
  lemma PagesCoverItems<T>(items: seq<T>, perPage: int)
    requires perPage >= 1
    ensures PagesUpTo(items, perPage, TotalPages(|items|, perPage)) == items
  {
    var t := TotalPages(|items|, perPage);
    TotalPagesIsCeiling(|items|, perPage);
    PageStartFacts(t, perPage);
    PagesUpToIsPrefix(items, perPage, t);
    assert items[..|items|] == items;
  }

  /** Page 0 starts one page before the first item and ends at 0: no data. */
  lemma PageZeroIsEmpty<T>(items: seq<T>, perPage: int)
    requires perPage >= 1
    ensures Paginate(items, 0, perPage).data == []
  {
  }

  /** A negative page is not rejected: both slice bounds count from the end of the
      list, so page -k shows the items k whole pages before the end (clamped at 0). */
  lemma NegativePageCountsFromEnd<T>(items: seq<T>, page: int, perPage: int)
    requires perPage >= 1 && page < 0
    ensures var n := |items|;
      Paginate(items, page, perPage).data
        == items[Max(n + (page - 1) * perPage, 0)..Max(n + page * perPage, 0)]
  {
    PageStartFacts(page, perPage);
    MulStep(page - 1, perPage);
    PageStartMonotone(page + 1, 0, perPage);
  }
}
