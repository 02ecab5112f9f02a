/** The table's component state and the event handlers that replace it: the
    page, the rows per page, the sort column and direction, and the search
    term. */
module ViewState {
  import opened Options
  import opened Records
  import opened ColumnSort

  /** `page`, `rowsPerPage`, `orderBy` (`None` is the empty column name),
      `order` and `searchTerm`. */
  datatype View = View(
    page: nat,
    rowsPerPage: nat,
    orderBy: Option<Column>,
    order: Direction,
    searchTerm: string)

  /** A freshly mounted table: first page, ten rows per page, no sort column,
      'asc', empty search. */
  const Initial: View := View(0, 10, None, Asc, "")

  /** `handleChangePage`: go to another page; nothing else changes. */
  function ChangePage(v: View, newPage: nat): (w: View)
    ensures w.page == newPage
    ensures w.(page := v.page) == v
  {
    v.(page := newPage)
  }

  /** `handleChangeRowsPerPage`: a new page size always goes back to the
      first page; the sort and the search are kept. */
  function ChangeRowsPerPage(v: View, rowsPerPage: nat): (w: View)
    ensures w.page == 0 && w.rowsPerPage == rowsPerPage
    ensures w.(page := v.page, rowsPerPage := v.rowsPerPage) == v
  {
    v.(rowsPerPage := rowsPerPage, page := 0)
  }

  /** `handleRequestSort` on a header click: the clicked column becomes the
      sort column; the direction flips when it already was the sort column
      and starts at 'asc' otherwise. The page is kept. */
  function RequestSort(v: View, c: Column): (w: View)
    ensures w.orderBy == Some(c)
    ensures v.orderBy == Some(c) && v.order == Asc ==> w.order == Desc
    ensures v.orderBy == Some(c) && v.order == Desc ==> w.order == Asc
    ensures v.orderBy != Some(c) ==> w.order == Asc
    ensures w.(orderBy := v.orderBy, order := v.order) == v
  {
    var isAscending := v.orderBy == Some(c) && v.order == Asc;
    v.(orderBy := Some(c), order := if isAscending then Desc else Asc)
  }

  /** Clicking the active header twice restores the state; clicking any
      header twice leaves that column sorted 'desc'. */
  lemma RequestSortTwice(v: View, c: Column)
    ensures v.orderBy == Some(c) ==> RequestSort(RequestSort(v, c), c) == v
    ensures RequestSort(RequestSort(v, c), c).orderBy == Some(c)
    ensures v.orderBy != Some(c) ==> RequestSort(RequestSort(v, c), c).order == Desc
  {
  }

  /** Typing in the search box replaces the term and nothing else: in
      particular the page is not reset. */
  function SetSearchTerm(v: View, term: string): (w: View)
    ensures w.searchTerm == term
    ensures w.(searchTerm := v.searchTerm) == v
  {
    v.(searchTerm := term)
  }
}
