/** The fair-value screen: a growth rate is estimated from the quote's EPS figures,
    the fair value is trailing EPS times that rate, and the fair value is compared with
    the current price. The quote dictionary and the one-day price history come from
    the market-data library; here they are given as a map and an optional list of closes. */
module FairValue {
  import opened Wrappers
  import Text

  /** The numeric fields of a quote dictionary. */
  type Info = map<string, real>

  const ForwardEpsKey := "forwardEps"
  const TrailingEpsKey := "trailingEps"
  const EarningsGrowthKey := "earningsGrowth"
  const RegularMarketPriceKey := "regularMarketPrice"
  const CurrentPriceKey := "currentPrice"

  /** `info.get(key)`. */
  function Get(info: Info, key: string): Option<real> {
    if key in info then Some(info[key]) else None
  }

  // ---------------------------------------------------------------------------
  // Fair value and growth rate

  /** `calculate_fair_value`: EPS times the growth rate taken as a plain multiplier. */
  function CalculateFairValue(eps: real, growthRate: real): real {
    eps * growthRate
  }

  /** The forward/trailing route applies: both EPS figures present and trailing EPS nonzero. */
  predicate EpsRouteApplies(info: Info) {
    Get(info, ForwardEpsKey).Some? && Get(info, TrailingEpsKey).Some? && Get(info, TrailingEpsKey).value != 0.0
  }

  /** `get_eps_growth_rate`, in percent: the forward-over-trailing EPS change when it can be
      computed, otherwise the reported earnings growth, otherwise nothing. */
  function EpsGrowthRate(info: Info): (g: Option<real>)
    ensures g.None? <==> !EpsRouteApplies(info) && Get(info, EarningsGrowthKey).None?
    ensures EpsRouteApplies(info) ==>
              g.Some? && Get(info, TrailingEpsKey).value * (1.0 + g.value / 100.0) == Get(info, ForwardEpsKey).value
    ensures !EpsRouteApplies(info) && Get(info, EarningsGrowthKey).Some? ==>
              g.Some? && g.value / 100.0 == Get(info, EarningsGrowthKey).value
  {
    if EpsRouteApplies(info) then
      var f := Get(info, ForwardEpsKey).value;
      var t := Get(info, TrailingEpsKey).value;
      var g := (f / t - 1.0) * 100.0;
      GrowthRecoversForward(f, t, g);
      Some(g)
    else if Get(info, EarningsGrowthKey).Some? then
      Some(Get(info, EarningsGrowthKey).value * 100.0)
    else
      None
  }

  /** Growing trailing EPS by the computed percentage gives forward EPS back. */
  lemma GrowthRecoversForward(f: real, t: real, g: real)
    requires t != 0.0 && g == (f / t - 1.0) * 100.0
    ensures t * (1.0 + g / 100.0) == f
  {
    assert g / 100.0 == f / t - 1.0;
    assert t * (f / t) == f;
  }

  /** On the EPS route the fair value is a hundred times the EPS gain: trailing EPS cancels. */
  lemma FairValueOnEpsRoute(info: Info)
    requires EpsRouteApplies(info)
    ensures CalculateFairValue(Get(info, TrailingEpsKey).value, EpsGrowthRate(info).value)
            == 100.0 * (Get(info, ForwardEpsKey).value - Get(info, TrailingEpsKey).value)
  {
    var t := Get(info, TrailingEpsKey).value;
    var g := EpsGrowthRate(info).value;
    assert t * (1.0 + g / 100.0) == Get(info, ForwardEpsKey).value;
    assert t * g == 100.0 * (t * (1.0 + g / 100.0) - t);
  }

  /** A zero trailing EPS never reaches the division: the reported earnings growth decides. */
  lemma ZeroTrailingEpsUsesEarningsGrowth(info: Info)
    requires Get(info, TrailingEpsKey) == Some(0.0)
    ensures EpsGrowthRate(info) == (if Get(info, EarningsGrowthKey).Some? then Some(Get(info, EarningsGrowthKey).value * 100.0) else None)
  {
  }

  // ---------------------------------------------------------------------------
  // Current price

  /** Python truthiness of an optional number: present and nonzero. */
  predicate Truthy(x: Option<real>) {
    x.Some? && x.value != 0.0
  }

  /** The last close of the one-day history: `None` when the request failed (`history`
      is `None`) or returned no rows. */
  function LastClose(history: Option<seq<real>>): (c: Option<real>)
    ensures c.Some? <==> history.Some? && |history.value| > 0
    ensures c.Some? ==> c.value == history.value[|history.value| - 1]
  {
    match history
    case Some(closes) => if |closes| > 0 then Some(closes[|closes| - 1]) else None
    case None => None
  }

  /** `get_current_price`: `regularMarketPrice or currentPrice`, falling back to the last
      close only when that expression is `None`. */
  function CurrentPrice(info: Info, history: Option<seq<real>>): (p: Option<real>)
    ensures p.None? <==> !Truthy(Get(info, RegularMarketPriceKey)) && Get(info, CurrentPriceKey).None? && LastClose(history).None?
    ensures p.Some? ==>
              || (Truthy(Get(info, RegularMarketPriceKey)) && p == Get(info, RegularMarketPriceKey))
              || (!Truthy(Get(info, RegularMarketPriceKey)) && p == Get(info, CurrentPriceKey))
              || (!Truthy(Get(info, RegularMarketPriceKey)) && Get(info, CurrentPriceKey).None? && p == LastClose(history))
  {
    var quoted := if Truthy(Get(info, RegularMarketPriceKey)) then Get(info, RegularMarketPriceKey) else Get(info, CurrentPriceKey);
    if quoted.None? then LastClose(history) else quoted
  }

  /** A regular-market price of zero is falsy and is passed over in favour of `currentPrice`. */
  lemma ZeroMarketPriceFallsThrough(info: Info, history: Option<seq<real>>, c: real)
    requires Get(info, RegularMarketPriceKey) == Some(0.0) && Get(info, CurrentPriceKey) == Some(c)
    ensures CurrentPrice(info, history) == Some(c)
  {
  }

  /** A `currentPrice` of zero is not `None`, so it is kept and the history is not consulted. */
  lemma ZeroCurrentPriceIsKept(info: Info, history: Option<seq<real>>)
    requires !Truthy(Get(info, RegularMarketPriceKey)) && Get(info, CurrentPriceKey) == Some(0.0)
    ensures CurrentPrice(info, history) == Some(0.0)
  {
  }

  /** A truthy regular-market price wins over every other source. */
  lemma MarketPriceWins(info: Info, history: Option<seq<real>>)
    requires Truthy(Get(info, RegularMarketPriceKey))
    ensures CurrentPrice(info, history) == Get(info, RegularMarketPriceKey)
  {
  }

  // ---------------------------------------------------------------------------
  // Verdict

  datatype Verdict =
    | Undervalued(gap: real)  // fair value above the price, by the difference
    | Overvalued(gap: real)   // fair value below the price, by the difference
    | FairlyValued

  /** The three-way comparison of fair value with price. */
  function Judge(fair: real, price: real): (v: Verdict)
    ensures v.Undervalued? ==> v.gap > 0.0 && fair == price + v.gap
    ensures v.Overvalued? ==> v.gap > 0.0 && price == fair + v.gap
    ensures v.FairlyValued? <==> fair == price
  {
    if fair > price then Undervalued(fair - price)
    else if fair < price then Overvalued(price - fair)
    else FairlyValued
  }

  /** Exchanging fair value and price exchanges the two verdicts and keeps the gap. */
  lemma JudgeSwaps(a: real, b: real)
    ensures Judge(a, b).Undervalued? <==> Judge(b, a).Overvalued?
    ensures Judge(a, b).Undervalued? ==> Judge(a, b).gap == Judge(b, a).gap
    ensures Judge(a, b).FairlyValued? <==> Judge(b, a).FairlyValued?
  {
  }

  // ---------------------------------------------------------------------------
  // One ticker

  /** How the screen ends for one ticker: skipped with one of three messages, or valued. */
  datatype Evaluation =
    | MissingTrailingEps
    | MissingGrowthRate
    | MissingPrice
    | Valued(trailingEps: real, growthRate: real, price: real, fairValue: real, verdict: Verdict)

  /** The loop body of `main` for one ticker, given its quote and one-day history. */
  function Evaluate(info: Info, history: Option<seq<real>>): (e: Evaluation)
    ensures e == MissingTrailingEps <==> Get(info, TrailingEpsKey).None?
    ensures e == MissingGrowthRate <==> Get(info, TrailingEpsKey).Some? && EpsGrowthRate(info).None?
    ensures e == MissingPrice <==>
              Get(info, TrailingEpsKey).Some? && EpsGrowthRate(info).Some? && CurrentPrice(info, history).None?
    ensures e.Valued? ==>
              && Get(info, TrailingEpsKey) == Some(e.trailingEps)
              && EpsGrowthRate(info) == Some(e.growthRate)
              && CurrentPrice(info, history) == Some(e.price)
              && e.fairValue == CalculateFairValue(e.trailingEps, e.growthRate)
              && e.verdict == Judge(e.fairValue, e.price)
  {
    match Get(info, TrailingEpsKey)
    case None => MissingTrailingEps
    case Some(eps) =>
      match EpsGrowthRate(info)
      case None => MissingGrowthRate
      case Some(rate) =>
        match CurrentPrice(info, history)
        case None => MissingPrice
        case Some(price) =>
          var fair := CalculateFairValue(eps, rate);
          Valued(eps, rate, price, fair, Judge(fair, price))
  }

  /** A valued ticker on the EPS route is undervalued exactly when a hundred times its
      EPS gain exceeds its price. */
  lemma EpsRouteVerdict(info: Info, history: Option<seq<real>>)
    requires EpsRouteApplies(info) && Evaluate(info, history).Valued?
    ensures Evaluate(info, history).fairValue
            == 100.0 * (Get(info, ForwardEpsKey).value - Get(info, TrailingEpsKey).value)
    ensures Evaluate(info, history).verdict.Undervalued? <==>
              100.0 * (Get(info, ForwardEpsKey).value - Get(info, TrailingEpsKey).value) > Evaluate(info, history).price
  {
    FairValueOnEpsRoute(info);
  }

  /** Off the EPS route the fair value is trailing EPS times the reported growth, times 100. */
  lemma FallbackFairValue(info: Info, history: Option<seq<real>>)
    requires !EpsRouteApplies(info) && Evaluate(info, history).Valued?
    ensures Get(info, EarningsGrowthKey).Some?
    ensures Evaluate(info, history).fairValue
            == 100.0 * (Get(info, TrailingEpsKey).value * Get(info, EarningsGrowthKey).value)
  {
  }

  // ---------------------------------------------------------------------------
  // Ticker input

  /** A ticker as the screen uses it: non-empty, no comma, no surrounding whitespace,
      no lower-case ASCII letter. */
  predicate IsCanonicalTicker(t: string) {
    && |t| > 0
    && ',' !in t
    && Text.IsStripped(t)
    && forall k :: 0 <= k < |t| ==> !Text.IsLowerAscii(t[k])
  }

  predicate NoCommas(pieces: seq<string>) {
    forall k :: 0 <= k < |pieces| ==> ',' !in pieces[k]
  }

  /** One split piece: its upper-cased strip, or nothing when the strip is empty. */
  function NormalizePiece(p: string): (t: Option<string>)
    requires ',' !in p
    ensures t.Some? ==> IsCanonicalTicker(t.value)
  {
    var s := Text.Strip(p);
    if s == "" then None
    else
      Text.StripKeepsInner(p);
      Text.UpperKeepsStripped(s);
      Some(Text.Upper(s))
  }

  /** The comprehension over the split pieces: the kept pieces, normalised, in order. */
  function NormalizePieces(pieces: seq<string>): (ts: seq<string>)
    requires NoCommas(pieces)
    ensures |ts| <= |pieces|
    ensures forall k :: 0 <= k < |ts| ==> IsCanonicalTicker(ts[k])
  {
    if |pieces| == 0 then []
    else
      match NormalizePiece(pieces[0])
      case None => NormalizePieces(pieces[1..])
      case Some(t) => [t] + NormalizePieces(pieces[1..])
  }

  /** The ticker list read from the comma-separated input line. */
  function NormalizeTickers(input: string): (ts: seq<string>)
    ensures forall k :: 0 <= k < |ts| ==> IsCanonicalTicker(ts[k])
  {
    NormalizePieces(Text.Split(input, ','))
  }

  /** Normalisation works piece by piece and keeps the input order. */
  lemma {:induction false} NormalizeAppend(a: seq<string>, b: seq<string>)
    requires NoCommas(a) && NoCommas(b)
    ensures NoCommas(a + b)
    ensures NormalizePieces(a + b) == NormalizePieces(a) + NormalizePieces(b)
  {
    NoCommasAppend(a, b);
    if |a| > 0 {
      var ab := a + b;
      assert ab[0] == a[0];
      assert ab[1..] == a[1..] + b;
      assert NoCommas(a[1..]);
      NormalizeAppend(a[1..], b);
    } else {
      assert a + b == b;
    }
  }

  lemma NoCommasAppend(a: seq<string>, b: seq<string>)
    requires NoCommas(a) && NoCommas(b)
    ensures NoCommas(a + b)
  {
    assert forall k :: 0 <= k < |a + b| ==> (a + b)[k] == (if k < |a| then a[k] else b[k - |a|]);
  }

  /** One piece becomes its upper-cased strip, or nothing when it is blank. */
  lemma NormalizeOnePiece(p: string)
    requires ',' !in p
    ensures NormalizePieces([p]) == if Text.Strip(p) == "" then [] else [Text.Upper(Text.Strip(p))]
  {
    assert [p][1..] == [];
  }

  /** Canonical tickers are fixed points of the per-piece normalisation. */
  lemma CanonicalIsFixed(t: string)
    requires IsCanonicalTicker(t)
    ensures Text.Upper(Text.Strip(t)) == t
  {
    Text.StrippedIsFixed(t);
    Text.UpperFixed(t);
  }

  lemma {:induction false} NormalizeCanonicalPieces(ts: seq<string>)
    requires forall k :: 0 <= k < |ts| ==> IsCanonicalTicker(ts[k])
    ensures (forall k :: 0 <= k < |ts| ==> ',' !in ts[k]) && NormalizePieces(ts) == ts
  {
    if |ts| > 0 {
      CanonicalIsFixed(ts[0]);
      NormalizeCanonicalPieces(ts[1..]);
    }
  }

  /** Round trip: joining canonical tickers with commas and reading them back gives the
      same list. */
  lemma NormalizeJoinRoundTrip(ts: seq<string>)
    requires |ts| >= 1
    requires forall k :: 0 <= k < |ts| ==> IsCanonicalTicker(ts[k])
    ensures NormalizeTickers(Text.Join(ts, ',')) == ts
  {
    Text.SplitJoin(ts, ',');
    NormalizeCanonicalPieces(ts);
  }

  /** Normalising twice changes nothing. */
  lemma NormalizeIdempotent(input: string)
    ensures var ts := NormalizeTickers(input);
            |ts| >= 1 ==> NormalizeTickers(Text.Join(ts, ',')) == ts
  {
    var ts := NormalizeTickers(input);
    if |ts| >= 1 {
      NormalizeJoinRoundTrip(ts);
    }
  }

  /** A line of blanks, commas and whitespace holds no ticker: the screen exits early. */
  lemma {:induction false} BlankPiecesGiveNoTickers(pieces: seq<string>)
    requires forall k :: 0 <= k < |pieces| ==> ',' !in pieces[k] && Text.AllSpace(pieces[k])
    ensures NormalizePieces(pieces) == []
  {
    if |pieces| > 0 {
      Text.StripOfSpace(pieces[0]);
      BlankPiecesGiveNoTickers(pieces[1..]);
    }
  }

  // ---------------------------------------------------------------------------
  // The whole screen

  /** What the market-data library returns for a ticker: its quote and, when the
      request succeeds, the closes of the one-day history. */
  datatype Quote = Quote(info: Info, history: Option<seq<real>>)

  datatype Report =
    | NoValidTickers
    | Evaluations(entries: seq<(string, Evaluation)>)

  function EvaluateAll(ts: seq<string>, market: string -> Quote): (es: seq<(string, Evaluation)>)
    ensures |es| == |ts|
    ensures forall k :: 0 <= k < |ts| ==>
              es[k] == (ts[k], Evaluate(market(ts[k]).info, market(ts[k]).history))
  {
    if |ts| == 0 then [] else [(ts[0], Evaluate(market(ts[0]).info, market(ts[0]).history))] + EvaluateAll(ts[1..], market)
  }

  /** `main`: an early exit when the line holds no ticker, otherwise one evaluation per
      ticker, in input order, each depending only on that ticker's own quote. */
  function Screen(input: string, market: string -> Quote): (r: Report)
    ensures r.NoValidTickers? <==> NormalizeTickers(input) == []
    ensures r.Evaluations? ==> |r.entries| == |NormalizeTickers(input)|
    ensures r.Evaluations? ==> forall k :: 0 <= k < |r.entries| ==>
              && r.entries[k].0 == NormalizeTickers(input)[k]
              && r.entries[k].1 == Evaluate(market(r.entries[k].0).info, market(r.entries[k].0).history)
  {
    var ts := NormalizeTickers(input);
    if ts == [] then NoValidTickers else Evaluations(EvaluateAll(ts, market))
  }
}
