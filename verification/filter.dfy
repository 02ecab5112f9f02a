/** The search box of the table: keep the rows whose player name contains
    the search term, ignoring case. */
module SearchFilter {
  import Text
  import opened Records

  /** A row matches when its lower-cased player name contains the lower-cased
      term. */
  predicate Matches(row: Row, term: string): (r: bool)
    ensures r <==> exists i :: Text.OccursAt(Text.Lower(row.playerName), Text.Lower(term), i)
  {
    Text.ContainsIffOccurs(Text.Lower(row.playerName), Text.Lower(term));
    Text.Contains(Text.Lower(row.playerName), Text.Lower(term))
  }

  /** `data.filter(...)`: the matching rows, in input order. A row kept is a
      matching row of the input, and each matching row is kept as many times
      as it occurs. */
  function Filter(rows: seq<Row>, term: string): (r: seq<Row>)
    ensures |r| <= |rows|
    ensures forall x :: x in r <==> x in rows && Matches(x, term)
    ensures forall x :: multiset(r)[x] == if Matches(x, term) then multiset(rows)[x] else 0
    decreases |rows|
  {
    if |rows| == 0 then []
    else
      assert rows == [rows[0]] + rows[1..];
      (if Matches(rows[0], term) then [rows[0]] else []) + Filter(rows[1..], term)
  }

  /** Filtering works row by row: the rows kept from two lists one after the
      other are the rows kept from each, in that order. Together with the
      one-row case this pins the result down to "the matching rows in input
      order". */
  lemma {:induction false} FilterAppend(a: seq<Row>, b: seq<Row>, term: string)
    ensures Filter(a + b, term) == Filter(a, term) + Filter(b, term)
    decreases |a|
  {
    if |a| == 0 {
      assert a + b == b;
    } else {
      var head := if Matches(a[0], term) then [a[0]] else [];
      assert (a + b)[0] == a[0];
      assert (a + b)[1..] == a[1..] + b;
      FilterAppend(a[1..], b, term);
      calc {
        Filter(a + b, term);
        head + Filter(a[1..] + b, term);
        head + (Filter(a[1..], term) + Filter(b, term));
        (head + Filter(a[1..], term)) + Filter(b, term);
      }
    }
  }

  /** A one-row list is kept exactly when the row matches. */
  lemma FilterSingle(x: Row, term: string)
    ensures Filter([x], term) == if Matches(x, term) then [x] else []
  {
    assert [x][1..] == [];
  }

  /** The empty search term keeps every row, in order. */
  lemma {:induction false} FilterEmptyTerm(rows: seq<Row>)
    ensures Filter(rows, "") == rows
    decreases |rows|
  {
    if |rows| > 0 {
      assert Text.Lower("") == "";
      FilterEmptyTerm(rows[1..]);
      assert rows == [rows[0]] + rows[1..];
    }
  }

  /** Searching again for the same term changes nothing. */
  lemma {:induction false} FilterIdempotent(rows: seq<Row>, term: string)
    ensures Filter(Filter(rows, term), term) == Filter(rows, term)
    decreases |rows|
  {
    if |rows| > 0 {
      var head := if Matches(rows[0], term) then [rows[0]] else [];
      FilterIdempotent(rows[1..], term);
      FilterAppend(head, Filter(rows[1..], term), term);
      if Matches(rows[0], term) {
        FilterSingle(rows[0], term);
      }
    }
  }

  /** The term is lower-cased before the comparison, so typing it in any
      case finds the same rows: searching for the lower-cased term is
      searching for the term. */
  lemma {:induction false} FilterLowerTerm(rows: seq<Row>, term: string)
    ensures Filter(rows, Text.Lower(term)) == Filter(rows, term)
    decreases |rows|
  {
    if |rows| > 0 {
      Text.LowerIdempotent(term);
      assert Matches(rows[0], Text.Lower(term)) == Matches(rows[0], term);
      FilterLowerTerm(rows[1..], term);
    }
  }
}
