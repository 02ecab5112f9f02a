/** The data that flows from the server to the table: JSON values, the
    seven-key row object built by the server, the five sortable columns and
    the values a column holds. */
module Records {
  import opened Options
  import Text

  /** A JSON value as decoded on the client. An object is the sequence of its
      own properties in enumeration order. */
  datatype Json =
    | JNull
    | JBool(b: bool)
    | JNum(n: real)
    | JStr(s: string)
    | JArr(items: seq<Json>)
    | JObj(fields: seq<(string, Json)>)

  /** The properties of a JSON object, in enumeration order. */
  type Entries = seq<(string, Json)>

  /** One table row: the object with the keys "Player name", "Model",
      "Home run probability", "Home run odds", "Did hit HR", "stats" and
      "odds_data". A `None` stats dictionary is an `undefined` property. */
  datatype Row = Row(
    playerName: string,
    model: string,
    probability: real,
    odds: string,
    didHitHr: string,
    stats: Option<Entries>,
    oddsData: Json)

  /** The sortable columns, one per header of the table. */
  datatype Column = PlayerName | ModelName | Probability | Odds | DidHitHr

  /** The header order of the table. */
  const ColumnOrder: seq<Column> := [PlayerName, ModelName, Probability, Odds, DidHitHr]

  /** The property name a column reads from a row. */
  function ColumnName(c: Column): string {
    match c
    case PlayerName => "Player name"
    case ModelName => "Model"
    case Probability => "Home run probability"
    case Odds => "Home run odds"
    case DidHitHr => "Did hit HR"
  }

  /** Every column has its own header, and the header row lists each column once. */
  lemma ColumnHeaders(c: Column, d: Column)
    ensures ColumnName(c) == ColumnName(d) <==> c == d
    ensures c in ColumnOrder
    ensures |ColumnOrder| == 5
  {
  }

  /** A cell value, as JavaScript sees it: a string or a number. */
  datatype Value = Text(s: string) | Number(x: real)

  /** `item[orderBy]`: the value a row holds in a column. */
  function Key(c: Column, row: Row): (v: Value)
    ensures v.Number? <==> c == Probability
  {
    match c
    case PlayerName => Text(row.playerName)
    case ModelName => Text(row.model)
    case Probability => Number(row.probability)
    case Odds => Text(row.odds)
    case DidHitHr => Text(row.didHitHr)
  }

  /** JavaScript's `a < b` on two values of one kind: numeric for numbers,
      lexicographic for strings. A column never mixes kinds (see `Key`), so
      the mixed case does not arise; it is false here. */
  predicate ValueLess(a: Value, b: Value): (r: bool)
    ensures a.Number? != b.Number? ==> !r
    ensures a.Number? && b.Number? ==> (r <==> a.x < b.x)
    ensures a.Text? && b.Text? ==> (r <==> Text.LexLess(a.s, b.s))
  {
    match (a, b)
    case (Number(x), Number(y)) => x < y
    case (Text(s), Text(t)) => Text.LexLess(s, t)
    case _ => false
  }

  /** `ValueLess` is a strict total order on the values of one column:
      irreflexive, transitive, and any two different values are ordered. */
  lemma ValueLessOrder(c: Column, a: Row, b: Row, d: Row)
    ensures !ValueLess(Key(c, a), Key(c, a))
    ensures ValueLess(Key(c, a), Key(c, b)) && ValueLess(Key(c, b), Key(c, d)) ==> ValueLess(Key(c, a), Key(c, d))
    ensures Key(c, a) != Key(c, b) ==> ValueLess(Key(c, a), Key(c, b)) || ValueLess(Key(c, b), Key(c, a))
  {
    var x, y, z := Key(c, a), Key(c, b), Key(c, d);
    if c != Probability {
      if ValueLess(x, y) && ValueLess(y, z) {
        Text.LexLessTransitive(x.s, y.s, z.s);
      }
      if x != y {
        Text.LexLessTotal(x.s, y.s);
      }
    }
  }
}
