/** The server side of the table: the pure helpers that turn a stored
    prediction document into a row (rounding, American odds, the outcome
    label) and the projection of a day's documents into rows. */
module Server {
  import opened Options
  import Text
  import opened Records

  /** A stored prediction document with the fields the daily query keeps.
      `homeRunOdds` holds the model's home-run probability. */
  datatype Document = Document(
    playerName: string,
    model: string,
    homeRunOdds: real,
    didHitHr: int,
    stats: Entries,
    oddsData: Option<Json>)

  /** Python's built-in `round(x)`: the nearest integer, ties to the even one. */
  function RoundHalfEven(x: real): (r: int)
    ensures r as real - 0.5 <= x <= r as real + 0.5
    ensures (x - r as real == 0.5 || r as real - x == 0.5) ==> r % 2 == 0
  {
    var f := x.Floor;
    var d := x - f as real;
    if d < 0.5 then f
    else if d > 0.5 then f + 1
    else if f % 2 == 0 then f else f + 1
  }

  /** The two conditions of `RoundHalfEven`'s contract pick out one integer. */
  lemma RoundHalfEvenUnique(x: real, k: int)
    requires k as real - 0.5 <= x <= k as real + 0.5
    requires (x - k as real == 0.5 || k as real - x == 0.5) ==> k % 2 == 0
    ensures k == RoundHalfEven(x)
  {
  }

  /** Python's `round(x, 3)`: the nearest multiple of 1/1000, ties to even. */
  function Round3(x: real): (r: real)
    ensures -0.0005 <= r - x <= 0.0005
    ensures (r * 1000.0).Floor as real == r * 1000.0
  {
    RoundHalfEven(x * 1000.0) as real / 1000.0
  }

  lemma DivNonNegative(a: real, b: real)
    requires a >= 0.0 && b > 0.0
    ensures a / b >= 0.0
  {
  }

  /** Below one half, the underdog payout per 100 staked exceeds 100. */
  lemma UnderdogAbove100(p: real)
    requires 0.0 < p < 0.5
    ensures (1.0 / p - 1.0) * 100.0 > 100.0
  {
    assert 1.0 / p - 2.0 == (1.0 - 2.0 * p) / p;
  }

  /** From one half up, a favourite's stake per 100 won, p / (1 - p) times 100,
      is at least 100. */
  lemma FavouriteAtLeast100(p: real)
    requires 0.5 <= p < 1.0
    ensures p / (1.0 - p) >= 1.0
  {
    assert p / (1.0 - p) - 1.0 == (2.0 * p - 1.0) / (1.0 - p);
    DivNonNegative(2.0 * p - 1.0, 1.0 - p);
  }

  /** The exact American odds of a win probability strictly between 0 and 1:
      positive (what a 100 stake wins) for an underdog, negative (the stake
      that wins 100) for a favourite. */
  function FairOdds(p: real): (o: real)
    requires 0.0 < p < 1.0
    ensures p < 0.5 ==> o > 100.0
    ensures p >= 0.5 ==> o <= -100.0
  {
    if p < 0.5 then
      UnderdogAbove100(p);
      (1.0 / p - 1.0) * 100.0
    else
      FavouriteAtLeast100(p);
      -(100.0 * (p / (1.0 - p)))
  }

  /** The win probability a quote in American odds stands for. */
  function ImpliedProbability(o: real): (p: real)
    requires o != 0.0
    ensures 0.0 < p < 1.0
  {
    if o > 0.0 then 100.0 / (o + 100.0) else -o / (100.0 - o)
  }

  /** The fair odds of a probability imply that probability again. */
  lemma FairOddsImplied(p: real)
    requires 0.0 < p < 1.0
    ensures ImpliedProbability(FairOdds(p)) == p
  {
    var o := FairOdds(p);
    if p < 0.5 {
      assert o + 100.0 == 100.0 / p;
    } else {
      var q := p / (1.0 - p);
      assert q * (1.0 - p) == p;
      assert 100.0 - o == 100.0 * (q + 1.0);
      assert q + 1.0 == 1.0 / (1.0 - p);
      assert -o / (100.0 - o) == q / (q + 1.0);
    }
  }

  /** Reads a signed odds string "+N" or "-N" back into an integer. */
  function ParseOdds(s: string): Option<int> {
    if |s| >= 2 && Text.IsDecimal(s[1..]) then
      var n: int := Text.ParseNat(s[1..]);
      if s[0] == '+' then Some(n)
      else if s[0] == '-' then Some(-n)
      else None
    else None
  }

  /** Odds string of a rounded magnitude `m` with sign `sign`. */
  function SignedOdds(sign: char, m: nat): (r: string)
    requires sign == '+' || sign == '-'
    ensures |r| >= 2 && r[0] == sign
    ensures ParseOdds(r) == Some(if sign == '+' then m as int else 0 - m)
  {
    var digits := Text.NatToString(m);
    Text.ParseNatToString(m);
    assert ([sign] + digits)[1..] == digits;
    [sign] + digits
  }

  /** `probability_to_american_odds`, with the favourite branch pricing
      `p / (1 - p)` stakes per 100 won, so that the odds imply `p`. "N/A"
      outside the open interval (0, 1); otherwise the fair odds rounded to
      the nearest integer with the sign spelled out. */
  function ProbabilityToAmericanOdds(p: real): (r: string)
    ensures |r| >= 2
    ensures r == "N/A" <==> p <= 0.0 || p >= 1.0
    ensures 0.0 < p < 0.5 ==> r[0] == '+'
    ensures 0.5 <= p < 1.0 ==> r[0] == '-'
    ensures 0.0 < p < 1.0 ==>
      ParseOdds(r).Some? && -0.5 <= ParseOdds(r).value as real - FairOdds(p) <= 0.5
  {
    if p <= 0.0 || p >= 1.0 then "N/A"
    else if p < 0.5 then
      UnderdogAbove100(p);
      SignedOdds('+', RoundHalfEven((1.0 / p - 1.0) * 100.0))
    else
      FavouriteAtLeast100(p);
      SignedOdds('-', RoundHalfEven(100.0 * (p / (1.0 - p))))
  }

  /** `probability_to_american_odds` as written: the favourite branch prints
      `round(-100 / (p - 1))`, that is 100 / (1 - p). */
  function ProbabilityToAmericanOddsAsWritten(p: real): (r: string)
    ensures |r| >= 2
    ensures r == "N/A" <==> p <= 0.0 || p >= 1.0
    ensures 0.0 < p < 0.5 ==> r == ProbabilityToAmericanOdds(p)
    ensures 0.5 <= p < 1.0 ==>
      r[0] == '-' && ParseOdds(r).Some? && -0.5 <= ParseOdds(r).value as real + 100.0 / (1.0 - p) <= 0.5
  {
    if p <= 0.0 || p >= 1.0 then "N/A"
    else if p < 0.5 then
      UnderdogAbove100(p);
      SignedOdds('+', RoundHalfEven((1.0 / p - 1.0) * 100.0))
    else
      AsWrittenFavouriteOverstated(p);
      FavouriteAtLeast100(p);
      SignedOdds('-', RoundHalfEven(-100.0 / (p - 1.0)))
  }

  /** The favourite price as written, 100 / (1 - p) before rounding, is the
      fair stake 100 p / (1 - p) plus 100: every favourite is overpriced by
      exactly 100, so the printed odds never imply p. */
  lemma AsWrittenFavouriteOverstated(p: real)
    requires 0.5 <= p < 1.0
    ensures -100.0 / (p - 1.0) == 100.0 / (1.0 - p)
    ensures 100.0 / (1.0 - p) == -FairOdds(p) + 100.0
  {
    var q := p / (1.0 - p);
    assert q * (1.0 - p) == p;
    assert q + 1.0 == 1.0 / (1.0 - p);
  }

  /** A probability of 3/4 prints as "-400" as written, odds that imply 4/5,
      and as "-300" once the favourite branch prices p / (1 - p), odds that
      imply 3/4. */
  lemma AsWrittenThreeQuarters()
    ensures ProbabilityToAmericanOddsAsWritten(0.75) == "-400"
    ensures ImpliedProbability(-400.0) == 0.8
    ensures ProbabilityToAmericanOdds(0.75) == "-300"
    ensures ImpliedProbability(-300.0) == 0.75
  {
    assert -100.0 / (0.75 - 1.0) == 400.0;
    assert RoundHalfEven(400.0) == 400;
    assert 100.0 * (0.75 / (1.0 - 0.75)) == 300.0;
    assert RoundHalfEven(300.0) == 300;
    assert Text.NatToString(400) == "400";
    assert Text.NatToString(300) == "300";
  }

  /** Reads an outcome label back into the stored code. */
  function ParseHr(s: string): Option<int> {
    if s == "No" then Some(0)
    else if s == "Yes" then Some(1)
    else if s == "---" then Some(2)
    else None
  }

  /** `get_hr_string`: 0 is "No", 1 is "Yes", 2 (not played yet) is "---";
      any other code fails the assertion, so it is excluded here. */
  function HrString(i: int): (r: string)
    requires 0 <= i <= 2
    ensures ParseHr(r) == Some(i)
  {
    if i == 0 then "No" else if i == 1 then "Yes" else "---"
  }

  /** Different outcome codes get different labels. */
  lemma HrStringInjective(i: int, j: int)
    requires 0 <= i <= 2 && 0 <= j <= 2
    requires HrString(i) == HrString(j)
    ensures i == j
  {
    assert ParseHr(HrString(i)) == Some(i);
  }

  predicate ValidDocument(d: Document) {
    0 <= d.didHitHr <= 2
  }

  /** The row the server builds from one document (the dictionary
      comprehension of the daily query). The odds cell is the conversion as
      the server writes it, favourite branch included. */
  function ProjectDocument(d: Document): (r: Row)
    requires ValidDocument(d)
    ensures r.playerName == d.playerName && r.model == d.model
    ensures r.probability == Round3(d.homeRunOdds)
    ensures -0.0005 <= r.probability - d.homeRunOdds <= 0.0005
    ensures r.odds == ProbabilityToAmericanOddsAsWritten(d.homeRunOdds)
    ensures ParseHr(r.didHitHr) == Some(d.didHitHr)
    ensures r.stats == Some(d.stats)
    ensures d.oddsData.Some? ==> r.oddsData == d.oddsData.value
    ensures d.oddsData.None? ==> r.oddsData == JObj([])
  {
    Row(
      d.playerName,
      d.model,
      Round3(d.homeRunOdds),
      ProbabilityToAmericanOddsAsWritten(d.homeRunOdds),
      HrString(d.didHitHr),
      Some(d.stats),
      d.oddsData.GetOr(JObj([])))
  }

  /** The rows for a day's documents: one per document, in document order. */
  function Project(docs: seq<Document>): (rows: seq<Row>)
    requires forall i :: 0 <= i < |docs| ==> ValidDocument(docs[i])
    ensures |rows| == |docs|
    ensures forall i :: 0 <= i < |docs| ==> rows[i] == ProjectDocument(docs[i])
    decreases |docs|
  {
    if |docs| == 0 then []
    else [ProjectDocument(docs[0])] + Project(docs[1..])
  }

  /** Projection works document by document: projecting two batches one after
      the other is projecting their concatenation. */
  lemma {:induction false} ProjectAppend(a: seq<Document>, b: seq<Document>)
    requires forall i :: 0 <= i < |a| ==> ValidDocument(a[i])
    requires forall i :: 0 <= i < |b| ==> ValidDocument(b[i])
    ensures forall i :: 0 <= i < |a + b| ==> ValidDocument((a + b)[i])
    ensures Project(a + b) == Project(a) + Project(b)
  {
    var ab := a + b;
    assert forall i :: 0 <= i < |ab| ==> ValidDocument(ab[i]) by {
      forall i | 0 <= i < |ab| ensures ValidDocument(ab[i]) {
        if i < |a| { assert ab[i] == a[i]; } else { assert ab[i] == b[i - |a|]; }
      }
    }
  }
}
