/** Pagination of the sorted rows: the page slice, the pad rows that keep a
    short page as tall as a full one, and how the pages cover the rows. */
module Paging {

  function Min(a: int, b: int): int {
    if a <= b then a else b
  }

  function Max(a: int, b: int): int {
    if a >= b then a else b
  }

  /** `r` is page `page` of `s`: the rows of `s` from position
      `page * rowsPerPage` on, in order, at most `rowsPerPage` of them and
      as many as remain, and none once that position is at or past the end. */
  ghost predicate IsPage<T>(r: seq<T>, s: seq<T>, page: nat, rowsPerPage: nat) {
    && |r| <= rowsPerPage
    && (page * rowsPerPage >= |s| ==> r == [])
    && (page * rowsPerPage < |s| ==> |r| == Min(rowsPerPage, |s| - page * rowsPerPage))
    && (forall i :: 0 <= i < |r| ==> page * rowsPerPage + i < |s| && r[i] == s[page * rowsPerPage + i])
  }

  /** `sortedData.slice(page * rowsPerPage, page * rowsPerPage + rowsPerPage)`;
      `slice` clips both bounds to the length, so a page past the end is
      empty. */
  function PageSlice<T>(s: seq<T>, page: nat, rowsPerPage: nat): (r: seq<T>)
    ensures |r| <= rowsPerPage
    ensures page * rowsPerPage >= |s| ==> r == []
    ensures page * rowsPerPage < |s| ==> |r| == Min(rowsPerPage, |s| - page * rowsPerPage)
    ensures |r| > 0 ==> page * rowsPerPage + |r| <= |s|
    ensures forall i :: 0 <= i < |r| ==> r[i] == s[page * rowsPerPage + i]
    ensures IsPage(r, s, page, rowsPerPage)
  {
    var start := Min(page * rowsPerPage, |s|);
    var end := Min(page * rowsPerPage + rowsPerPage, |s|);
    s[start..end]
  }

  /** The page is the slice between the clipped bounds. */
  lemma PageSliceBounds<T>(s: seq<T>, page: nat, rowsPerPage: nat)
    ensures PageSlice(s, page, rowsPerPage) ==
      s[Min(page * rowsPerPage, |s|)..Min(page * rowsPerPage + rowsPerPage, |s|)]
  {
  }

  /** A page holds rows of the list, no row more often than the list does. */
  lemma PageSliceSubMultiset<T>(s: seq<T>, page: nat, rowsPerPage: nat)
    ensures multiset(PageSlice(s, page, rowsPerPage)) <= multiset(s)
  {
    var start := Min(page * rowsPerPage, |s|);
    var end := Min(page * rowsPerPage + rowsPerPage, |s|);
    PageSliceBounds(s, page, rowsPerPage);
    assert s == s[..start] + s[start..end] + s[end..];
  }

  /** Pages 0 to k - 1, one after the other. */
  function FirstPages<T>(s: seq<T>, rowsPerPage: nat, k: nat): seq<T>
    decreases k
  {
    if k == 0 then [] else FirstPages(s, rowsPerPage, k - 1) + PageSlice(s, k - 1, rowsPerPage)
  }

  lemma MulStep(k: nat, r: nat)
    requires k > 0
    ensures (k - 1) * r + r == k * r
  {
  }

  /** The first k pages are the first k * rowsPerPage rows (or all of them). */
  lemma {:induction false} FirstPagesPrefix<T>(s: seq<T>, rowsPerPage: nat, k: nat)
    ensures FirstPages(s, rowsPerPage, k) == s[..Min(k * rowsPerPage, |s|)]
    decreases k
  {
    if k > 0 {
      FirstPagesPrefix(s, rowsPerPage, k - 1);
      var start := (k - 1) * rowsPerPage;
      var stop := k * rowsPerPage;
      MulStep(k, rowsPerPage);
      assert start + rowsPerPage == stop;
      var lo := Min(start, |s|);
      var hi := Min(stop, |s|);
      assert lo <= hi <= |s|;
      PageSliceBounds(s, k - 1, rowsPerPage);
      assert s[..lo] + s[lo..hi] == s[..hi];
    }
  }

  /** The number of pages the pagination control offers: ceil(count / rowsPerPage). */
  function PageCount(count: nat, rowsPerPage: nat): (n: nat)
    requires rowsPerPage > 0
    ensures n * rowsPerPage >= count
    ensures n == 0 || (n - 1) * rowsPerPage < count
  {
    var n := (count + rowsPerPage - 1) / rowsPerPage;
    assert n * rowsPerPage + (count + rowsPerPage - 1) % rowsPerPage == count + rowsPerPage - 1;
    n
  }

  /** Concatenating the pages in order gives back every row exactly once, in
      order. */
  lemma AllPages<T>(s: seq<T>, rowsPerPage: nat)
    requires rowsPerPage > 0
    ensures FirstPages(s, rowsPerPage, PageCount(|s|, rowsPerPage)) == s
  {
    FirstPagesPrefix(s, rowsPerPage, PageCount(|s|, rowsPerPage));
  }

  /** A page is non-empty exactly when it comes before the page count. */
  lemma PageEmptyIffPastCount<T>(s: seq<T>, page: nat, rowsPerPage: nat)
    requires rowsPerPage > 0
    ensures PageSlice(s, page, rowsPerPage) == [] <==> page >= PageCount(|s|, rowsPerPage)
  {
    var n := PageCount(|s|, rowsPerPage);
    if page >= n {
      assert page * rowsPerPage >= n * rowsPerPage;
    } else {
      assert page * rowsPerPage <= (n - 1) * rowsPerPage;
    }
  }

  /** `emptyRows` as written:
      max(0, rowsPerPage - min(rowsPerPage, sortedData.length - page * rowsPerPage)).
      Once the page starts past the end the inner difference is negative and
      the pad count exceeds a full page. */
  function EmptyRowsAsWritten<T>(s: seq<T>, page: nat, rowsPerPage: nat): (e: int)
    ensures e >= 0
    ensures page * rowsPerPage <= |s| ==> e + |PageSlice(s, page, rowsPerPage)| == rowsPerPage
    ensures page * rowsPerPage > |s| ==>
      e == rowsPerPage + (page * rowsPerPage - |s|) && e > rowsPerPage && PageSlice(s, page, rowsPerPage) == []
  {
    Max(0, rowsPerPage - Min(rowsPerPage, |s| - page * rowsPerPage))
  }

  /** Five rows, ten rows per page, page 1 (reachable when the search term
      shrinks the list while page 1 is shown): the page is empty and the pad
      count is 15, half a page more than a full page. */
  lemma EmptyRowsAsWrittenPastEnd()
    ensures PageSlice(seq(5, i => i), 1, 10) == []
    ensures EmptyRowsAsWritten(seq(5, i => i), 1, 10) == 15
  {
  }

  /** The pad-row count the table evidently intends: the rows missing from a
      full page, never more than a page and never negative. */
  function EmptyRows<T>(s: seq<T>, page: nat, rowsPerPage: nat): (e: nat)
    ensures e <= rowsPerPage
    ensures e + |PageSlice(s, page, rowsPerPage)| == rowsPerPage
  {
    rowsPerPage - Min(rowsPerPage, Max(0, |s| - page * rowsPerPage))
  }

  /** As long as the page does not start past the end, the formula as written
      and the intended one agree. */
  lemma EmptyRowsAgree<T>(s: seq<T>, page: nat, rowsPerPage: nat)
    requires page * rowsPerPage <= |s|
    ensures EmptyRows(s, page, rowsPerPage) == EmptyRowsAsWritten(s, page, rowsPerPage)
  {
  }

  /** Seven rows on the only page of ten leave three pad rows; ten rows leave
      none. Both formulas give these counts. */
  lemma EmptyRowsExamples()
    ensures EmptyRowsAsWritten(seq(7, i => i), 0, 10) == 3
    ensures EmptyRowsAsWritten(seq(10, i => i), 0, 10) == 0
    ensures EmptyRows(seq(7, i => i), 0, 10) == 3
    ensures EmptyRows(seq(10, i => i), 0, 10) == 0
  {
  }
}
