/** Column sorting of the table. The comparator inverts its labels: under
    `Asc` a row with the larger value goes first, under `Desc` the row with
    the smaller one. With no column selected every comparison is a tie.
    `Array.prototype.sort` is stable, so the result is the stable sort of
    the filtered rows by the comparator; the insertion sort below computes
    exactly that. */
module ColumnSort {
  import opened Options
  import opened Records

  /** The `order` state: 'asc' or 'desc'. */
  datatype Direction = Asc | Desc

  /** The comparator passed to `sort`: negative puts `a` first, positive puts
      `b` first, zero keeps the input order. `orderBy == None` is the empty
      column name, under which both values are `null` and tie. */
  function Compare(orderBy: Option<Column>, order: Direction, a: Row, b: Row): (r: int)
    ensures r == -1 || r == 0 || r == 1
    ensures orderBy.Some? && order == Asc ==>
      (r < 0 <==> ValueLess(Key(orderBy.value, b), Key(orderBy.value, a)))
    ensures orderBy.Some? && order == Desc ==>
      (r < 0 <==> ValueLess(Key(orderBy.value, a), Key(orderBy.value, b)))
    ensures r == 0 <==> orderBy.None? || Key(orderBy.value, a) == Key(orderBy.value, b)
  {
    match orderBy
    case None => 0
    case Some(c) =>
      ValueLessOrder(c, a, b, a);
      ValueLessOrder(c, b, a, b);
      var av, bv := Key(c, a), Key(c, b);
      if order == Asc then
        if ValueLess(bv, av) then -1 else if ValueLess(av, bv) then 1 else 0
      else
        if ValueLess(av, bv) then -1 else if ValueLess(bv, av) then 1 else 0
  }

  /** The comparator is antisymmetric: swapping the arguments negates it. */
  lemma CompareConsistent(orderBy: Option<Column>, order: Direction, a: Row, b: Row)
    ensures Compare(orderBy, order, a, b) == -Compare(orderBy, order, b, a)
  {
    if orderBy.Some? {
      ValueLessOrder(orderBy.value, a, b, a);
      ValueLessOrder(orderBy.value, b, a, b);
    }
  }

  /** `a` is placed strictly before `b`. */
  predicate Before(orderBy: Option<Column>, order: Direction, a: Row, b: Row) {
    Compare(orderBy, order, a, b) < 0
  }

  /** `Before` is a strict weak order: irreflexive, asymmetric, and if `a`
      goes before `c` then any `b` goes after `a` or before `c`. */
  lemma BeforeWeakOrder(orderBy: Option<Column>, order: Direction, a: Row, b: Row, c: Row)
    ensures !Before(orderBy, order, a, a)
    ensures Before(orderBy, order, a, b) ==> !Before(orderBy, order, b, a)
    ensures Before(orderBy, order, a, c) ==> Before(orderBy, order, a, b) || Before(orderBy, order, b, c)
  {
    if orderBy.Some? {
      var col := orderBy.value;
      ValueLessOrder(col, a, b, c);
      ValueLessOrder(col, a, c, b);
      ValueLessOrder(col, b, a, c);
      ValueLessOrder(col, b, c, a);
      ValueLessOrder(col, c, a, b);
      ValueLessOrder(col, c, b, a);
      ValueLessOrder(col, a, b, a);
    }
  }

  /** No row is placed strictly before an earlier one. */
  predicate Sorted(orderBy: Option<Column>, order: Direction, s: seq<Row>) {
    forall i, j :: 0 <= i < j < |s| ==> !Before(orderBy, order, s[j], s[i])
  }

  /** Inserts `x` into `t` after the rows that go strictly before it. */
  function Insert(orderBy: Option<Column>, order: Direction, x: Row, t: seq<Row>): (r: seq<Row>)
    ensures |r| == |t| + 1
    ensures multiset(r) == multiset{x} + multiset(t)
    decreases |t|
  {
    if |t| == 0 then [x]
    else if Before(orderBy, order, t[0], x) then
      assert t == [t[0]] + t[1..];
      [t[0]] + Insert(orderBy, order, x, t[1..])
    else [x] + t
  }

  /** Inserting into a sorted list keeps it sorted. */
  lemma {:induction false} InsertSorted(orderBy: Option<Column>, order: Direction, x: Row, t: seq<Row>)
    requires Sorted(orderBy, order, t)
    ensures Sorted(orderBy, order, Insert(orderBy, order, x, t))
    decreases |t|
  {
    var r := Insert(orderBy, order, x, t);
    if |t| == 0 {
    } else if Before(orderBy, order, t[0], x) {
      var rest := Insert(orderBy, order, x, t[1..]);
      InsertSorted(orderBy, order, x, t[1..]);
      assert r == [t[0]] + rest;
      forall j | 1 <= j < |r|
        ensures !Before(orderBy, order, r[j], t[0])
      {
        assert r[j] == rest[j - 1];
        assert r[j] in multiset(rest);
        if r[j] == x {
          BeforeWeakOrder(orderBy, order, t[0], x, x);
        } else {
          assert r[j] in multiset(t[1..]);
          var k :| 0 <= k < |t[1..]| && t[1..][k] == r[j];
          assert t[k + 1] == r[j];
        }
      }
    } else {
      assert r == [x] + t;
      forall j | 1 <= j < |r|
        ensures !Before(orderBy, order, r[j], x)
      {
        assert r[j] == t[j - 1];
        if j > 1 {
          assert !Before(orderBy, order, t[j - 1], t[0]);
        }
        BeforeWeakOrder(orderBy, order, t[j - 1], t[0], x);
      }
    }
  }

  /** `filteredData.slice().sort(comparator)`: a sorted rearrangement of the
      rows; with a column selected, `Asc` leaves the values non-increasing and
      `Desc` leaves them non-decreasing. */
  function SortRows(orderBy: Option<Column>, order: Direction, s: seq<Row>): (r: seq<Row>)
    ensures |r| == |s|
    ensures multiset(r) == multiset(s)
    ensures Sorted(orderBy, order, r)
    decreases |s|
  {
    if |s| == 0 then []
    else
      var rest := SortRows(orderBy, order, s[1..]);
      InsertSorted(orderBy, order, s[0], rest);
      assert s == [s[0]] + s[1..];
      Insert(orderBy, order, s[0], rest)
  }

  /** What "sorted" means for the values of the selected column. */
  lemma SortedValues(c: Column, order: Direction, s: seq<Row>)
    ensures Sorted(Some(c), order, SortRows(Some(c), order, s))
    ensures order == Asc ==> forall i, j :: 0 <= i < j < |s| ==>
      !ValueLess(Key(c, SortRows(Some(c), order, s)[i]), Key(c, SortRows(Some(c), order, s)[j]))
    ensures order == Desc ==> forall i, j :: 0 <= i < j < |s| ==>
      !ValueLess(Key(c, SortRows(Some(c), order, s)[j]), Key(c, SortRows(Some(c), order, s)[i]))
  {
    var r := SortRows(Some(c), order, s);
    forall i, j | 0 <= i < j < |s|
      ensures order == Asc ==> !ValueLess(Key(c, r[i]), Key(c, r[j]))
      ensures order == Desc ==> !ValueLess(Key(c, r[j]), Key(c, r[i]))
    {
      assert !Before(Some(c), order, r[j], r[i]);
    }
  }

  /** With no column selected nothing goes strictly before a row, so
      inserting it puts it first. */
  lemma NothingBeforeWithoutColumn(order: Direction, x: Row, t: seq<Row>)
    ensures Insert(None, order, x, t) == [x] + t
  {
    if |t| > 0 {
      assert !Before(None, order, t[0], x);
    }
  }

  /** With no column selected every comparison ties, so the order is kept. */
  lemma {:induction false} SortWithoutColumn(order: Direction, s: seq<Row>)
    ensures SortRows(None, order, s) == s
    decreases |s|
  {
    if |s| > 0 {
      var rest := SortRows(None, order, s[1..]);
      assert SortRows(None, order, s) == Insert(None, order, s[0], rest);
      SortWithoutColumn(order, s[1..]);
      NothingBeforeWithoutColumn(order, s[0], rest);
      assert s == [s[0]] + s[1..];
    }
  }

  /** A list that is already sorted is left as it is; in particular sorting
      twice by the same column and direction is sorting once. */
  lemma {:induction false} SortSortedIsIdentity(orderBy: Option<Column>, order: Direction, s: seq<Row>)
    requires Sorted(orderBy, order, s)
    ensures SortRows(orderBy, order, s) == s
    decreases |s|
  {
    if |s| > 0 {
      assert Sorted(orderBy, order, s[1..]);
      SortSortedIsIdentity(orderBy, order, s[1..]);
      if |s| > 1 {
        assert !Before(orderBy, order, s[1], s[0]);
      }
      assert s == [s[0]] + s[1..];
    }
  }

  lemma SortIdempotent(orderBy: Option<Column>, order: Direction, s: seq<Row>)
    ensures SortRows(orderBy, order, SortRows(orderBy, order, s)) == SortRows(orderBy, order, s)
  {
    SortSortedIsIdentity(orderBy, order, SortRows(orderBy, order, s));
  }

  /** `[x]` when `x` holds value `k` in column `c`, else `[]`. */
  function KeepIf(c: Column, k: Value, x: Row): seq<Row> {
    if Key(c, x) == k then [x] else []
  }

  /** The rows of `s` holding value `k` in column `c`, in order. */
  function WithKey(c: Column, k: Value, s: seq<Row>): seq<Row>
    decreases |s|
  {
    if |s| == 0 then [] else KeepIf(c, k, s[0]) + WithKey(c, k, s[1..])
  }

  lemma WithKeyCons(c: Column, k: Value, x: Row, s: seq<Row>)
    ensures WithKey(c, k, [x] + s) == KeepIf(c, k, x) + WithKey(c, k, s)
  {
    assert ([x] + s)[0] == x;
    assert ([x] + s)[1..] == s;
  }

  /** Two rows with different values cannot both hold value `k`, so their
      selections commute. */
  lemma KeepIfSwap(c: Column, k: Value, y: Row, x: Row)
    requires Key(c, y) != Key(c, x)
    ensures KeepIf(c, k, y) + KeepIf(c, k, x) == KeepIf(c, k, x) + KeepIf(c, k, y)
  {
  }

  lemma {:induction false} InsertWithKey(c: Column, order: Direction, k: Value, x: Row, t: seq<Row>)
    ensures WithKey(c, k, Insert(Some(c), order, x, t)) == WithKey(c, k, [x] + t)
    decreases |t|
  {
    if |t| > 0 && Before(Some(c), order, t[0], x) {
      var ins := Insert(Some(c), order, x, t[1..]);
      assert Insert(Some(c), order, x, t) == [t[0]] + ins;
      assert t == [t[0]] + t[1..];
      InsertWithKey(c, order, k, x, t[1..]);
      CompareConsistent(Some(c), order, t[0], x);
      WithKeyPassOver(c, k, x, t[0], t[1..], ins);
    } else if |t| > 0 {
      assert Insert(Some(c), order, x, t) == [x] + t;
    }
  }

  /** One step of `InsertWithKey`: `x` passing over a row `y` with a
      different value does not change the rows holding `k`. */
  lemma WithKeyPassOver(c: Column, k: Value, x: Row, y: Row, rest: seq<Row>, ins: seq<Row>)
    requires Key(c, y) != Key(c, x)
    requires WithKey(c, k, ins) == WithKey(c, k, [x] + rest)
    ensures WithKey(c, k, [y] + ins) == WithKey(c, k, [x] + ([y] + rest))
  {
    var kx, ky, wr := KeepIf(c, k, x), KeepIf(c, k, y), WithKey(c, k, rest);
    calc {
      WithKey(c, k, [y] + ins);
      { WithKeyCons(c, k, y, ins); }
      ky + WithKey(c, k, ins);
      { WithKeyCons(c, k, x, rest); }
      ky + (kx + wr);
      (ky + kx) + wr;
      { KeepIfSwap(c, k, y, x); }
      (kx + ky) + wr;
      kx + (ky + wr);
      { WithKeyCons(c, k, y, rest); }
      kx + WithKey(c, k, [y] + rest);
      { WithKeyCons(c, k, x, [y] + rest); }
      WithKey(c, k, [x] + ([y] + rest));
    }
  }

  /** The sort is stable: the rows sharing a value in the sorted column keep
      their input order. */
  lemma {:induction false} SortStable(c: Column, order: Direction, k: Value, s: seq<Row>)
    ensures WithKey(c, k, SortRows(Some(c), order, s)) == WithKey(c, k, s)
    decreases |s|
  {
    if |s| > 0 {
      var rest := SortRows(Some(c), order, s[1..]);
      InsertWithKey(c, order, k, s[0], rest);
      SortStable(c, order, k, s[1..]);
      WithKeyCons(c, k, s[0], rest);
      WithKeyCons(c, k, s[0], s[1..]);
      assert s == [s[0]] + s[1..];
    }
  }

  function Reverse(s: seq<Row>): (r: seq<Row>)
    ensures |r| == |s|
    ensures forall i :: 0 <= i < |s| ==> r[i] == s[|s| - 1 - i]
    decreases |s|
  {
    if |s| == 0 then [] else Reverse(s[1..]) + [s[0]]
  }

  lemma {:induction false} ReverseMultiset(s: seq<Row>)
    ensures multiset(Reverse(s)) == multiset(s)
    decreases |s|
  {
    if |s| > 0 {
      ReverseMultiset(s[1..]);
      assert s == [s[0]] + s[1..];
    }
  }

  /** Rows that agree in column `c` are the same row: the column has no
      duplicate values. */
  predicate DistinctKeys(c: Column, s: seq<Row>) {
    forall a, b :: a in s && b in s && Key(c, a) == Key(c, b) ==> a == b
  }

  /** Two sorted arrangements of the same rows start with the same row when
      the column has no duplicate values. */
  lemma SortedHeadsAgree(c: Column, order: Direction, x: seq<Row>, y: seq<Row>)
    requires |x| > 0 && |y| > 0
    requires multiset(x) == multiset(y)
    requires Sorted(Some(c), order, x) && Sorted(Some(c), order, y)
    requires DistinctKeys(c, x)
    ensures x[0] == y[0]
  {
    var x0, y0 := x[0], y[0];
    assert y0 in multiset(x) && x0 in multiset(y);
    var i :| 0 <= i < |x| && x[i] == y0;
    var j :| 0 <= j < |y| && y[j] == x0;
    if i != 0 && j != 0 {
      assert !Before(Some(c), order, y0, x0) by {
        assert !Before(Some(c), order, x[i], x[0]);
      }
      assert !Before(Some(c), order, x0, y0) by {
        assert !Before(Some(c), order, y[j], y[0]);
      }
      CompareConsistent(Some(c), order, x0, y0);
      assert Key(c, x0) == Key(c, y0);
    }
  }

  /** Dropping the first row keeps a list sorted, keeps its column free of
      duplicate values, and removes one copy of that row. */
  lemma Tail(c: Column, order: Direction, x: seq<Row>)
    requires |x| > 0
    ensures Sorted(Some(c), order, x) ==> Sorted(Some(c), order, x[1..])
    ensures DistinctKeys(c, x) ==> DistinctKeys(c, x[1..])
    ensures multiset(x[1..]) == multiset(x) - multiset{x[0]}
  {
    assert x == [x[0]] + x[1..];
    assert forall a :: a in x[1..] ==> a in x;
    assert forall i :: 0 <= i < |x[1..]| ==> x[1..][i] == x[i + 1];
  }

  /** On a column without duplicate values there is only one sorted
      arrangement of a given collection of rows. */
  lemma {:induction false} SortedUnique(c: Column, order: Direction, x: seq<Row>, y: seq<Row>)
    requires multiset(x) == multiset(y)
    requires Sorted(Some(c), order, x) && Sorted(Some(c), order, y)
    requires DistinctKeys(c, x)
    ensures x == y
    decreases |x|
  {
    assert |x| == |multiset(x)| == |multiset(y)| == |y|;
    if |x| > 0 {
      SortedHeadsAgree(c, order, x, y);
      Tail(c, order, x);
      Tail(c, order, y);
      SortedUnique(c, order, x[1..], y[1..]);
      assert x == [x[0]] + x[1..] && y == [y[0]] + y[1..];
    }
  }

  /** Reversing a list sorted under `Asc` gives one sorted under `Desc`. */
  lemma ReverseSorted(c: Column, a: seq<Row>)
    requires Sorted(Some(c), Asc, a)
    ensures Sorted(Some(c), Desc, Reverse(a))
  {
    var r, n := Reverse(a), |a|;
    forall i, j | 0 <= i < j < n
      ensures !Before(Some(c), Desc, r[j], r[i])
    {
      assert !Before(Some(c), Asc, a[n - 1 - i], a[n - 1 - j]);
    }
  }

  /** On a column without duplicate values, sorting in one direction and then
      in the other produces the exact reverse. */
  lemma SortReverse(c: Column, s: seq<Row>)
    requires DistinctKeys(c, s)
    ensures SortRows(Some(c), Desc, s) == Reverse(SortRows(Some(c), Asc, s))
  {
    var a := SortRows(Some(c), Asc, s);
    var d := SortRows(Some(c), Desc, s);
    ReverseMultiset(a);
    ReverseSorted(c, a);
    assert DistinctKeys(c, d) by {
      assert forall e :: e in d ==> e in multiset(s);
    }
    SortedUnique(c, Desc, d, Reverse(a));
  }
}
