/** `CustomTooltip`: the stats dictionary of a row shown as one line per
    entry. Number formatting (`toFixed(3)`) is the parameter `fixed3`. */
module Tooltip {
  import opened Options
  import opened Records

  /** What a line shows for a value: the three-decimal text of a number, or
      any other value as it is. */
  datatype Shown = Formatted(text: string) | AsIs(value: Json)

  /** One line of the tooltip: `key: value`. */
  datatype Line = Line(key: string, shown: Shown)

  /** The disabled info icon for an undefined dictionary, or the active icon
      whose tooltip holds the lines. */
  datatype Tooltip = Disabled | Active(lines: seq<Line>)

  /** `typeof value === 'number' ? parseFloat(value).toFixed(3) : value`. */
  function FormatValue(v: Json, fixed3: real -> string): (s: Shown)
    ensures v.JNum? ==> s == Formatted(fixed3(v.n))
    ensures !v.JNum? ==> s == AsIs(v)
  {
    if v.JNum? then Formatted(fixed3(v.n)) else AsIs(v)
  }

  /** The lines of `Object.entries(dictionary).map(...)`: one per entry, in
      entry order, with the key kept and the value formatted. */
  function FormatEntries(es: Entries, fixed3: real -> string): (r: seq<Line>)
    ensures |r| == |es|
    ensures forall i :: 0 <= i < |es| ==>
      r[i].key == es[i].0 && r[i].shown == FormatValue(es[i].1, fixed3)
    decreases |es|
  {
    if |es| == 0 then []
    else [Line(es[0].0, FormatValue(es[0].1, fixed3))] + FormatEntries(es[1..], fixed3)
  }

  /** Formatting works entry by entry: the lines of two dictionaries' entries
      one after the other are the lines of each. */
  lemma {:induction false} FormatEntriesAppend(a: Entries, b: Entries, fixed3: real -> string)
    ensures FormatEntries(a + b, fixed3) == FormatEntries(a, fixed3) + FormatEntries(b, fixed3)
    decreases |a|
  {
    if |a| == 0 {
      assert a + b == b;
    } else {
      assert (a + b)[0] == a[0];
      assert (a + b)[1..] == a[1..] + b;
      FormatEntriesAppend(a[1..], b, fixed3);
    }
  }

  /** The keys of the lines are the keys of the dictionary. */
  function Keys(es: Entries): (ks: seq<string>)
    ensures |ks| == |es| && forall i :: 0 <= i < |es| ==> ks[i] == es[i].0
  {
    seq(|es|, i requires 0 <= i < |es| => es[i].0)
  }

  function LineKeys(ls: seq<Line>): (ks: seq<string>)
    ensures |ks| == |ls| && forall i :: 0 <= i < |ls| ==> ks[i] == ls[i].key
  {
    seq(|ls|, i requires 0 <= i < |ls| => ls[i].key)
  }

  /** `CustomTooltip({dictionary})`: disabled exactly when the dictionary is
      undefined; otherwise one line per entry, keys in entry order. */
  function CustomTooltip(dictionary: Option<Entries>, fixed3: real -> string): (t: Tooltip)
    ensures t.Disabled? <==> dictionary.None?
    ensures t.Active? ==> LineKeys(t.lines) == Keys(dictionary.value)
    ensures t.Active? ==> forall i :: 0 <= i < |t.lines| ==>
      t.lines[i].shown == FormatValue(dictionary.value[i].1, fixed3)
  {
    match dictionary
    case None => Disabled
    case Some(es) => Active(FormatEntries(es, fixed3))
  }
}
