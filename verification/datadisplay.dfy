/** `DataDisplay`: the table as a pure function of the rows and the view
    state. The rows pass the search filter, then the column sort, then the
    page slice; each visible row shows its five column values and its stats
    tooltip, and pad rows fill a short page. */
module DataDisplay {
  import opened Options
  import opened Records
  import opened SearchFilter
  import opened ColumnSort
  import opened Paging
  import opened ViewState
  import opened Tooltip
  import Server

  /** One visible row: the column values in header order and the stats
      tooltip. */
  datatype RowView = RowView(cells: seq<Value>, stats: Tooltip)

  /** What the component renders: nothing while `data` is null or
      undefined, the "No data available" message for an empty array, or the
      table with its visible rows, pad-row count and the row count given to
      the pagination control. */
  datatype Screen = Nothing | NoData | Table(rows: seq<RowView>, padRows: nat, count: nat)

  /** `sortedData`: the filtered rows sorted by the view's column and
      direction. It is a rearrangement of the matching rows, no row is
      placed after one the comparator puts behind it, and rows sharing a
      value in the sort column keep the order the data gave them. */
  function SortedData(data: seq<Row>, v: View): (r: seq<Row>)
    ensures multiset(r) == multiset(Filter(data, v.searchTerm))
    ensures forall x :: x in r <==> x in data && Matches(x, v.searchTerm)
    ensures Sorted(v.orderBy, v.order, r)
    ensures v.orderBy.Some? ==> forall k ::
      WithKey(v.orderBy.value, k, r) == WithKey(v.orderBy.value, k, Filter(data, v.searchTerm))
    ensures v.orderBy.None? ==> r == Filter(data, v.searchTerm)
  {
    var f := Filter(data, v.searchTerm);
    var r := SortRows(v.orderBy, v.order, f);
    assert forall x :: x in r <==> x in multiset(r);
    match v.orderBy
    case None =>
      SortWithoutColumn(v.order, f);
      r
    case Some(c) =>
      assert forall k :: WithKey(c, k, r) == WithKey(c, k, f) by {
        forall k ensures WithKey(c, k, r) == WithKey(c, k, f) {
          SortStable(c, v.order, k, f);
        }
      }
      r
  }

  /** The rows of the current page: page `page` of the sorted list, so the
      rows from position `page * rowsPerPage` on, at most one page of them,
      and none once that position is at or past the end. */
  function Visible(data: seq<Row>, v: View): (r: seq<Row>)
    ensures IsPage(r, SortedData(data, v), v.page, v.rowsPerPage)
    ensures forall x :: x in r ==> x in data && Matches(x, v.searchTerm)
  {
    var s := SortedData(data, v);
    var r := PageSlice(s, v.page, v.rowsPerPage);
    PageSliceSubMultiset(s, v.page, v.rowsPerPage);
    assert forall x :: x in r ==> x in multiset(s);
    r
  }

  function ViewRow(row: Row, fixed3: real -> string): (rv: RowView)
    ensures |rv.cells| == |ColumnOrder|
    ensures forall i :: 0 <= i < |ColumnOrder| ==> rv.cells[i] == Key(ColumnOrder[i], row)
    ensures rv.stats == CustomTooltip(row.stats, fixed3)
  {
    RowView(seq(|ColumnOrder|, i requires 0 <= i < |ColumnOrder| => Key(ColumnOrder[i], row)),
            CustomTooltip(row.stats, fixed3))
  }

  function ViewRows(page: seq<Row>, fixed3: real -> string): (rvs: seq<RowView>)
    ensures |rvs| == |page|
    ensures forall i :: 0 <= i < |page| ==> rvs[i] == ViewRow(page[i], fixed3)
  {
    seq(|page|, i requires 0 <= i < |page| => ViewRow(page[i], fixed3))
  }

  /** The component's output. While the page starts within the sorted list,
      the page and its pad rows fill exactly `rowsPerPage` rows; once it
      starts past the end (a search that shrinks the list keeps the page),
      the page is empty and the pad count as written is a full page plus
      the overshoot. */
  function Render(data: Option<seq<Row>>, v: View, fixed3: real -> string): (scr: Screen)
    ensures scr.Nothing? <==> data.None?
    ensures scr.NoData? <==> data == Some([])
    ensures scr.Table? ==> scr.count == |Filter(data.value, v.searchTerm)|
    ensures scr.Table? ==> scr.rows == ViewRows(Visible(data.value, v), fixed3)
    ensures scr.Table? && v.page * v.rowsPerPage <= scr.count ==>
      |scr.rows| + scr.padRows == v.rowsPerPage
    ensures scr.Table? && v.page * v.rowsPerPage > scr.count ==>
      scr.rows == [] && scr.padRows == v.rowsPerPage + (v.page * v.rowsPerPage - scr.count)
  {
    match data
    case None => Nothing
    case Some(rows) =>
      if |rows| == 0 then NoData
      else
        var s := SortedData(rows, v);
        var page := Visible(rows, v);
        Table(ViewRows(page, fixed3), EmptyRowsAsWritten(s, v.page, v.rowsPerPage), |s|)
  }

  /** Walking the pages of a view from the first to the last shows every
      matching row exactly as often as it occurs in the data, and no other
      row. */
  lemma PagesCoverMatches(data: seq<Row>, v: View)
    requires v.rowsPerPage > 0
    ensures var s := SortedData(data, v);
      multiset(FirstPages(s, v.rowsPerPage, PageCount(|s|, v.rowsPerPage))) == multiset(Filter(data, v.searchTerm))
  {
    AllPages(SortedData(data, v), v.rowsPerPage);
  }

  /** After a change of page size the table shows the first rows of the
      sorted list, and the pad-row formula as written gives the intended
      count. */
  lemma ChangeRowsPerPageShowsFirstRows(data: seq<Row>, v: View, n: nat)
    ensures var w := ChangeRowsPerPage(v, n);
      var s := SortedData(data, w);
      Visible(data, w) == s[..Min(n, |s|)] &&
      EmptyRowsAsWritten(s, w.page, w.rowsPerPage) == EmptyRows(s, w.page, w.rowsPerPage)
  {
    var w := ChangeRowsPerPage(v, n);
    EmptyRowsAgree(SortedData(data, w), 0, n);
  }

  /** A freshly mounted table shows the first ten rows of the data in the
      order they arrived. */
  lemma InitialViewShowsFirstRows(data: seq<Row>)
    ensures Visible(data, Initial) == data[..Min(10, |data|)]
  {
    FilterEmptyTerm(data);
    SortWithoutColumn(Asc, data);
  }

  /** Typing a term keeps the page, so the pad-row formula as written runs
      past a full page when the new term leaves fewer rows than the page
      starts at. */
  lemma SearchPastEndOverPads(data: seq<Row>, v: View, term: string)
    requires v.page * v.rowsPerPage > |Filter(data, term)|
    ensures var w := SetSearchTerm(v, term);
      Visible(data, w) == [] &&
      EmptyRowsAsWritten(SortedData(data, w), w.page, w.rowsPerPage) > w.rowsPerPage
  {
  }

  /** Clicking a header that is not the sort column sorts by it with the
      'asc' label, which puts the larger values first. */
  lemma ClickNewHeaderSortsLargestFirst(data: seq<Row>, v: View, c: Column)
    requires v.orderBy != Some(c)
    ensures var s := SortedData(data, RequestSort(v, c));
      forall i, j :: 0 <= i < j < |s| ==> !ValueLess(Key(c, s[i]), Key(c, s[j]))
  {
    SortedValues(c, Asc, Filter(data, v.searchTerm));
  }

  /** Every row the server builds carries a stats dictionary, so its tooltip
      is never the disabled icon and has one line per stat. */
  lemma ProjectedRowsHaveStats(docs: seq<Server.Document>, fixed3: real -> string)
    requires forall i :: 0 <= i < |docs| ==> Server.ValidDocument(docs[i])
    ensures forall i :: 0 <= i < |docs| ==>
      var t := CustomTooltip(Server.Project(docs)[i].stats, fixed3);
      t.Active? && |t.lines| == |docs[i].stats|
  {
  }
}
