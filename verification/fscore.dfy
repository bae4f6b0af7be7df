/** The Piotroski F-Score tally: nine 0/1 criteria over a ticker's fundamentals,
    each comparing parsed numbers, summed into a score between 0 and 9. The
    fundamentals are the dictionary the vendor library returns, given here as a map. */
module FScore {
  import opened Wrappers
  import Text
  import Decimal

  /** A raw fundamentals value: vendor text such as `"$1,234.5"` or `"12.3%"`, or a
      value that is already numeric. */
  datatype Raw = Str(text: string) | Num(number: real)

  type Fundamentals = map<string, Raw>

  // ---------------------------------------------------------------------------
  // parse_value

  /** The text handed to `float`: every `$`, `%` and `,` removed, then stripped. */
  function Clean(s: string): string {
    Text.Strip(Text.Remove(Text.Remove(Text.Remove(s, '$'), '%'), ','))
  }

  /** The cleaned text has no currency sign, percent sign or thousands separator and no
      surrounding whitespace, and every other character of the input survives. */
  lemma CleanMeaning(s: string)
    ensures '$' !in Clean(s) && '%' !in Clean(s) && ',' !in Clean(s)
    ensures Text.IsStripped(Clean(s))
    ensures forall d :: d !in "$%," && !Text.IsSpace(d) ==> (d in Clean(s) <==> d in s)
  {
    var a := Text.Remove(s, '$');
    var b := Text.Remove(a, '%');
    var c := Text.Remove(b, ',');
    Text.RemoveMembership(s, '$');
    Text.RemoveMembership(a, '%');
    Text.RemoveMembership(b, ',');
    Text.StripKeepsInner(c);
  }

  /** `parse_value`: text is cleaned and parsed, a failed parse gives `None` instead of
      raising, a numeric value passes through unchanged, and a missing value stays missing. */
  function ParseValue(v: Option<Raw>): (r: Option<real>)
    ensures v.None? ==> r.None?
    ensures v.Some? && v.value.Num? ==> r == Some(v.value.number)
    ensures v.Some? && v.value.Str? ==> r == Decimal.ParseFloat(Clean(v.value.text))
  {
    match v
    case None => None
    case Some(Num(x)) => Some(x)
    case Some(Str(s)) => Decimal.ParseFloat(Clean(s))
  }

  /** `data.get(key)`. */
  function Get(data: Fundamentals, key: string): Option<Raw> {
    if key in data then Some(data[key]) else None
  }

  /** `parse_value(data.get(key))`. */
  function Field(data: Fundamentals, key: string): Option<real> {
    ParseValue(Get(data, key))
  }

  // ---------------------------------------------------------------------------
  // Field names and criterion names

  const RoaKey := "ROA"
  const PrevRoaKey := "Prev ROA"
  const NetIncomeKey := "Net Income"
  const CashFlowKey := "Operating Cash Flow"
  const DebtKey := "Long Term Debt"
  const PrevDebtKey := "Prev Long Term Debt"
  const CurrentRatioKey := "Current Ratio"
  const PrevCurrentRatioKey := "Prev Current Ratio"
  const SharesKey := "Shares Outstanding"
  const PrevSharesKey := "Prev Shares Outstanding"
  const GrossMarginKey := "Gross Margin"
  const PrevGrossMarginKey := "Prev Gross Margin"
  const TurnoverKey := "Asset Turnover"
  const PrevTurnoverKey := "Prev Asset Turnover"

  const RoaPositive := "ROA_Positive"
  const CfoPositive := "CFO_Positive"
  const RoaChange := "ROA_Change"
  const QualityEarnings := "Quality_Earnings"
  const DebtDecrease := "Debt_Decrease"
  const CurrentRatioChange := "Current_Ratio_Change"
  const NoNewShares := "No_New_Shares"
  const GrossMarginChange := "Gross_Margin_Change"
  const AssetTurnoverChange := "Asset_Turnover_Change"

  /** The breakdown's keys, in the order they are inserted. */
  const CriterionNames: seq<string> := [
    RoaPositive, CfoPositive, RoaChange, QualityEarnings, DebtDecrease,
    CurrentRatioChange, NoNewShares, GrossMarginChange, AssetTurnoverChange
  ]

  /** The fourteen fundamentals fields the criteria read; a field is named by its
      position in this sequence. */
  const FieldKeys: seq<string> := [
    RoaKey, PrevRoaKey, NetIncomeKey, CashFlowKey, DebtKey, PrevDebtKey,
    CurrentRatioKey, PrevCurrentRatioKey, SharesKey, PrevSharesKey,
    GrossMarginKey, PrevGrossMarginKey, TurnoverKey, PrevTurnoverKey
  ]

  type FieldIndex = i: nat | i < 14

  const Roa: FieldIndex := 0
  const PrevRoa: FieldIndex := 1
  const NetIncome: FieldIndex := 2
  const CashFlow: FieldIndex := 3
  const Debt: FieldIndex := 4
  const PrevDebt: FieldIndex := 5
  const CurrentRatio: FieldIndex := 6
  const PrevCurrentRatio: FieldIndex := 7
  const Shares: FieldIndex := 8
  const PrevShares: FieldIndex := 9
  const GrossMargin: FieldIndex := 10
  const PrevGrossMargin: FieldIndex := 11
  const Turnover: FieldIndex := 12
  const PrevTurnover: FieldIndex := 13

  /** The fields criterion `k` (counting from 0) reads. */
  function Operands(k: nat): seq<FieldIndex> {
    match k
    case 0 => [Roa]
    case 1 => [CashFlow]
    case 2 => [Roa, PrevRoa]
    case 3 => [CashFlow, NetIncome]
    case 4 => [Debt, PrevDebt]
    case 5 => [CurrentRatio, PrevCurrentRatio]
    case 6 => [Shares, PrevShares]
    case 7 => [GrossMargin, PrevGrossMargin]
    case 8 => [Turnover, PrevTurnover]
    case _ => []
  }

  // ---------------------------------------------------------------------------
  // The criteria

  /** One point when the value is present and above zero. */
  function Positive(x: Option<real>): nat {
    if x.Some? && x.value > 0.0 then 1 else 0
  }

  /** One point when both values are present and the first is strictly greater. */
  function Greater(a: Option<real>, b: Option<real>): nat {
    if a.Some? && b.Some? && a.value > b.value then 1 else 0
  }

  /** One point when both values are present and the first is strictly smaller. */
  function Less(a: Option<real>, b: Option<real>): nat {
    if a.Some? && b.Some? && a.value < b.value then 1 else 0
  }

  /** One point when both values are present and the first is at most the second. */
  function AtMost(a: Option<real>, b: Option<real>): nat {
    if a.Some? && b.Some? && a.value <= b.value then 1 else 0
  }

  /** The fourteen parsed fields, indexed like `FieldKeys`. */
  type Inputs = x: seq<Option<real>> | |x| == 14 witness seq(14, _ => None)

  /** Every field read through `parse_value(data.get(key))`. */
  function ReadInputs(data: Fundamentals): (x: Inputs)
    ensures forall i :: 0 <= i < 14 ==> x[i] == Field(data, FieldKeys[i])
  {
    seq(14, i requires 0 <= i < 14 => Field(data, FieldKeys[i]))
  }

  /** Criterion `k` (counting from 0) earns its point: every field it reads is present
      and its comparison favours the company. */
  predicate Earns(x: Inputs, k: nat) {
    match k
    case 0 => x[Roa].Some? && x[Roa].value > 0.0
    case 1 => x[CashFlow].Some? && x[CashFlow].value > 0.0
    case 2 => x[Roa].Some? && x[PrevRoa].Some? && x[Roa].value > x[PrevRoa].value
    case 3 => x[CashFlow].Some? && x[NetIncome].Some? && x[CashFlow].value > x[NetIncome].value
    case 4 => x[Debt].Some? && x[PrevDebt].Some? && x[Debt].value < x[PrevDebt].value
    case 5 => x[CurrentRatio].Some? && x[PrevCurrentRatio].Some? && x[CurrentRatio].value > x[PrevCurrentRatio].value
    case 6 => x[Shares].Some? && x[PrevShares].Some? && x[Shares].value <= x[PrevShares].value
    case 7 => x[GrossMargin].Some? && x[PrevGrossMargin].Some? && x[GrossMargin].value > x[PrevGrossMargin].value
    case 8 => x[Turnover].Some? && x[PrevTurnover].Some? && x[Turnover].value > x[PrevTurnover].value
    case _ => false
  }

  /** The nine criteria, in breakdown order. */
  function Points(x: Inputs): (p: seq<nat>)
    ensures |p| == 9
    ensures forall k :: 0 <= k < 9 ==> p[k] <= 1
    ensures forall k :: 0 <= k < 9 ==> (p[k] == 1 <==> Earns(x, k))
  {
    [ Positive(x[Roa]),
      Positive(x[CashFlow]),
      Greater(x[Roa], x[PrevRoa]),
      Greater(x[CashFlow], x[NetIncome]),
      Less(x[Debt], x[PrevDebt]),
      Greater(x[CurrentRatio], x[PrevCurrentRatio]),
      AtMost(x[Shares], x[PrevShares]),
      Greater(x[GrossMargin], x[PrevGrossMargin]),
      Greater(x[Turnover], x[PrevTurnover]) ]
  }

  // ---------------------------------------------------------------------------
  // The result

  datatype ScoreResult = ScoreResult(
    ticker: string,
    fScore: int,
    breakdown: map<string, int>,
    data: Fundamentals)

  /** The breakdown entries named in `names`, added up. */
  function SumOver(b: map<string, int>, names: seq<string>): int
    requires forall k :: 0 <= k < |names| ==> names[k] in b
  {
    if |names| == 0 then 0 else b[names[0]] + SumOver(b, names[1..])
  }

  function Sum(xs: seq<nat>): nat {
    if |xs| == 0 then 0 else xs[0] + Sum(xs[1..])
  }

  /** The breakdown built from the nine points, keyed by criterion name. */
  function Breakdown(p: seq<nat>): (b: map<string, int>)
    requires |p| == 9 && forall k :: 0 <= k < 9 ==> p[k] <= 1
    ensures b.Keys == set k | k in CriterionNames
    ensures forall k :: 0 <= k < 9 ==> b[CriterionNames[k]] == p[k]
    ensures forall name :: name in b ==> 0 <= b[name] <= 1
  {
    map[RoaPositive := p[0], CfoPositive := p[1], RoaChange := p[2],
        QualityEarnings := p[3], DebtDecrease := p[4], CurrentRatioChange := p[5],
        NoNewShares := p[6], GrossMarginChange := p[7], AssetTurnoverChange := p[8]]
  }

  lemma {:induction false} SumOverBreakdown(p: seq<nat>, from: nat)
    requires |p| == 9 && from <= 9 && forall k :: 0 <= k < 9 ==> p[k] <= 1
    ensures SumOver(Breakdown(p), CriterionNames[from..]) == Sum(p[from..])
    decreases 9 - from
  {
    if from < 9 {
      assert CriterionNames[from..][1..] == CriterionNames[from + 1..];
      assert p[from..][1..] == p[from + 1..];
      SumOverBreakdown(p, from + 1);
    }
  }

  /** The breakdown's entries add up to the sum of the points. */
  lemma BreakdownSum(p: seq<nat>)
    requires |p| == 9 && forall k :: 0 <= k < 9 ==> p[k] <= 1
    ensures SumOver(Breakdown(p), CriterionNames) == Sum(p)
  {
    SumOverBreakdown(p, 0);
    assert p[0..] == p && CriterionNames[0..] == CriterionNames;
  }

  lemma {:induction false} SumBounded(xs: seq<nat>)
    requires forall k :: 0 <= k < |xs| ==> xs[k] <= 1
    ensures Sum(xs) <= |xs|
  {
    if |xs| > 0 {
      SumBounded(xs[1..]);
    }
  }

  /** The result assembled from the nine points. */
  function Tally(ticker: string, p: seq<nat>, data: Fundamentals): (res: ScoreResult)
    requires |p| == 9 && forall k :: 0 <= k < 9 ==> p[k] <= 1
    ensures res.ticker == ticker && res.data == data
    ensures res.breakdown.Keys == set k | k in CriterionNames
    ensures forall name :: name in res.breakdown ==> 0 <= res.breakdown[name] <= 1
    ensures res.fScore == SumOver(res.breakdown, CriterionNames)
    ensures 0 <= res.fScore <= 9
    ensures forall k :: 0 <= k < 9 ==> res.breakdown[CriterionNames[k]] == p[k]
  {
    BreakdownSum(p);
    SumBounded(p);
    ScoreResult(ticker, Sum(p), Breakdown(p), data)
  }

  /** `calculate_piotroski_score` once the fundamentals are fetched: the breakdown has
      exactly the nine criterion keys, each entry is 0 or 1, the score is their sum and
      so lies in 0..9, and the ticker and raw data are echoed unchanged. */
  function CalculatePiotroskiScore(ticker: string, data: Fundamentals): (res: ScoreResult)
    ensures res.ticker == ticker && res.data == data
    ensures res.breakdown.Keys == set k | k in CriterionNames
    ensures forall name :: name in res.breakdown ==> 0 <= res.breakdown[name] <= 1
    ensures res.fScore == SumOver(res.breakdown, CriterionNames)
    ensures 0 <= res.fScore <= 9
  {
    Tally(ticker, Points(ReadInputs(data)), data)
  }

  // ---------------------------------------------------------------------------
  // Properties of the tally

  /** The entry a criterion gets, read back through the breakdown. */
  lemma EntryIsPoint(ticker: string, data: Fundamentals, k: nat)
    requires k < 9
    ensures CalculatePiotroskiScore(ticker, data).breakdown[CriterionNames[k]] == Points(ReadInputs(data))[k]
  {
  }

  /** The favourable case: every criterion's fields present and its comparison in the
      company's favour. */
  ghost predicate Favourable(x: Inputs) {
    forall k :: 0 <= k < 9 ==> Earns(x, k)
  }

  /** The nine criteria together read all fourteen fields: the favourable case has every one. */
  lemma FavourableHasEveryField(x: Inputs)
    requires Favourable(x)
    ensures forall i :: 0 <= i < 14 ==> x[i].Some?
  {
    assert Earns(x, 2) && Earns(x, 3) && Earns(x, 4) && Earns(x, 5);
    assert Earns(x, 6) && Earns(x, 7) && Earns(x, 8);
  }

  lemma {:induction false} SumIsLengthOnlyIfAllOnes(xs: seq<nat>)
    requires forall k :: 0 <= k < |xs| ==> xs[k] <= 1
    ensures Sum(xs) == |xs| <==> forall k :: 0 <= k < |xs| ==> xs[k] == 1
  {
    if |xs| > 0 {
      SumIsLengthOnlyIfAllOnes(xs[1..]);
      SumBounded(xs[1..]);
      assert forall k :: 1 <= k < |xs| ==> xs[k] == xs[1..][k - 1];
    }
  }

  lemma {:induction false} SumZeroIfAllZero(xs: seq<nat>)
    requires forall k :: 0 <= k < |xs| ==> xs[k] == 0
    ensures Sum(xs) == 0
  {
    if |xs| > 0 {
      SumZeroIfAllZero(xs[1..]);
    }
  }

  lemma {:induction false} SumMonotone(xs: seq<nat>, ys: seq<nat>)
    requires |xs| == |ys|
    requires forall k :: 0 <= k < |xs| ==> xs[k] <= ys[k]
    ensures Sum(xs) <= Sum(ys)
  {
    if |xs| > 0 {
      SumMonotone(xs[1..], ys[1..]);
    }
  }

  /** Every criterion scores its point exactly in the favourable case. */
  lemma AllPointsExactlyWhenFavourable(x: Inputs)
    ensures (forall k :: 0 <= k < 9 ==> Points(x)[k] == 1) <==> Favourable(x)
  {
    var p := Points(x);
    assert forall k :: 0 <= k < 9 ==> (p[k] == 1 <==> Earns(x, k));
  }

  /** The top score is reached exactly when every criterion is favourable, and then
      every breakdown entry is 1. */
  lemma NineExactlyWhenFavourable(ticker: string, data: Fundamentals)
    ensures CalculatePiotroskiScore(ticker, data).fScore == 9 <==> Favourable(ReadInputs(data))
    ensures Favourable(ReadInputs(data)) ==>
              forall k :: 0 <= k < 9 ==> CalculatePiotroskiScore(ticker, data).breakdown[CriterionNames[k]] == 1
  {
    SumIsLengthOnlyIfAllOnes(Points(ReadInputs(data)));
    AllPointsExactlyWhenFavourable(ReadInputs(data));
  }

  /** A field absent from the fundamentals parses as missing. */
  lemma FieldMissing(data: Fundamentals, key: string)
    requires key !in data
    ensures Field(data, key) == None
  {
  }

  /** A criterion with a missing operand scores 0. */
  lemma MissingOperandPoint(x: Inputs, k: nat, j: FieldIndex)
    requires k < 9 && j in Operands(k) && x[j] == None
    ensures Points(x)[k] == 0
  {
  }

  /** With no fundamentals at all every criterion fails: the score and every entry are 0. */
  lemma NoDataScoresZero(ticker: string)
    ensures CalculatePiotroskiScore(ticker, map[]).fScore == 0
    ensures forall k :: 0 <= k < 9 ==> CalculatePiotroskiScore(ticker, map[]).breakdown[CriterionNames[k]] == 0
  {
    var x := ReadInputs(map[]);
    forall k | 0 <= k < 9 ensures Points(x)[k] == 0 {
      var j := Operands(k)[0];
      FieldMissing(map[], FieldKeys[j]);
      MissingOperandPoint(x, k, j);
    }
    SumZeroIfAllZero(Points(x));
  }

  /** A criterion with any of its fields absent from the fundamentals scores 0. */
  lemma MissingOperandScoresZero(ticker: string, data: Fundamentals, k: nat, j: FieldIndex)
    requires k < 9 && j in Operands(k) && FieldKeys[j] !in data
    ensures CalculatePiotroskiScore(ticker, data).breakdown[CriterionNames[k]] == 0
  {
    EntryIsPoint(ticker, data, k);
    FieldMissing(data, FieldKeys[j]);
    MissingOperandPoint(ReadInputs(data), k, j);
  }

  /** Criterion 7 is non-strict: unchanged share counts earn the point. */
  lemma UnchangedSharesScoresOne(ticker: string, data: Fundamentals, v: real)
    requires Field(data, SharesKey) == Some(v) && Field(data, PrevSharesKey) == Some(v)
    ensures CalculatePiotroskiScore(ticker, data).breakdown[NoNewShares] == 1
  {
    EntryIsPoint(ticker, data, 6);
  }

  /** Criterion 8 is strict: an unchanged gross margin earns nothing. */
  lemma UnchangedGrossMarginScoresZero(ticker: string, data: Fundamentals, v: real)
    requires Field(data, GrossMarginKey) == Some(v) && Field(data, PrevGrossMarginKey) == Some(v)
    ensures CalculatePiotroskiScore(ticker, data).breakdown[GrossMarginChange] == 0
  {
    EntryIsPoint(ticker, data, 7);
  }

  /** `a` carries no more information than `b`: missing, or the same value. */
  predicate Weaker(a: Option<real>, b: Option<real>) {
    a.None? || a == b
  }

  /** Replacing present values by missing ones never earns a criterion a point. */
  lemma CriteriaMonotone(x: Inputs, y: Inputs)
    requires forall i :: 0 <= i < 14 ==> Weaker(x[i], y[i])
    ensures forall k :: 0 <= k < 9 ==> Points(x)[k] <= Points(y)[k]
  {
    assert Weaker(x[Roa], y[Roa]) && Weaker(x[PrevRoa], y[PrevRoa]);
    assert Weaker(x[NetIncome], y[NetIncome]) && Weaker(x[CashFlow], y[CashFlow]);
    assert Weaker(x[Debt], y[Debt]) && Weaker(x[PrevDebt], y[PrevDebt]);
    assert Weaker(x[CurrentRatio], y[CurrentRatio]) && Weaker(x[PrevCurrentRatio], y[PrevCurrentRatio]);
    assert Weaker(x[Shares], y[Shares]) && Weaker(x[PrevShares], y[PrevShares]);
    assert Weaker(x[GrossMargin], y[GrossMargin]) && Weaker(x[PrevGrossMargin], y[PrevGrossMargin]);
    assert Weaker(x[Turnover], y[Turnover]) && Weaker(x[PrevTurnover], y[PrevTurnover]);
  }

  /** The total over weaker inputs is at most the total over stronger ones. */
  lemma ScoreMonotone(x: Inputs, y: Inputs)
    requires forall i :: 0 <= i < 14 ==> Weaker(x[i], y[i])
    ensures Sum(Points(x)) <= Sum(Points(y))
  {
    CriteriaMonotone(x, y);
    SumMonotone(Points(x), Points(y));
  }

  lemma {:induction false} DroppingFieldWeakensInputs(data: Fundamentals, key: string)
    ensures forall i :: 0 <= i < 14 ==> Weaker(ReadInputs(data - {key})[i], ReadInputs(data)[i])
  {
    var x := ReadInputs(data - {key});
    var y := ReadInputs(data);
    forall i | 0 <= i < 14 ensures Weaker(x[i], y[i]) {
      var name := FieldKeys[i];
      if name != key && name in data {
        assert Get(data - {key}, name) == Get(data, name);
      }
    }
  }

  /** Missing data is only ever scored as a failed criterion: dropping a field from the
      fundamentals never raises the score. */
  lemma DroppingFieldNeverRaisesScore(ticker: string, data: Fundamentals, key: string)
    ensures CalculatePiotroskiScore(ticker, data - {key}).fScore <= CalculatePiotroskiScore(ticker, data).fScore
  {
    DroppingFieldWeakensInputs(data, key);
    ScoreMonotone(ReadInputs(data - {key}), ReadInputs(data));
  }

  /** Text without marks or surrounding whitespace is left alone, and so is what a
      leading `$` and a trailing `%` surround. */
  lemma CleanPlain(t: string)
    requires '$' !in t && '%' !in t && ',' !in t && Text.IsStripped(t)
    ensures Clean(t) == t
    ensures Clean("$" + t + "%") == t
  {
    Text.RemoveAbsent(t, '$');
    Text.RemoveAbsent(t, '%');
    Text.RemoveAbsent(t, ',');
    Text.StrippedIsFixed(t);
    Text.RemoveAppend("$", t, '$');
    Text.RemoveAppend("$" + t, "%", '$');
    Text.RemoveAppend(t, "%", '%');
    assert Text.Remove("$", '$') == [] by { assert "$"[1..] == []; }
    assert Text.Remove("%", '$') == "%" by { assert "%"[1..] == []; }
    assert Text.Remove("%", '%') == [] by { assert "%"[1..] == []; }
    assert Text.Remove("$", '$') + t == t;
    assert Text.Remove("$" + t, '$') == t;
    assert Text.Remove("$" + t + "%", '$') == t + "%";
    assert Text.Remove(t + "%", '%') == t;
  }

  lemma ParsesTwelvePointThirtyFour()
    ensures Decimal.ParseFloat("12.34") == Some(12.34)
  {
    assert "12.34" == Decimal.RenderDecimal(false, 12, "34");
    Decimal.ParseRenderDecimal(false, 12, "34");
    assert Decimal.DigitsValue("34") == 34 by {
      assert "34"[..1] == "3";
    }
    assert Decimal.Pow10(2) == 100.0 by {
      assert Decimal.Pow10(1) == 10.0;
    }
    assert Decimal.DecimalValue(12, "34") == 12.34;
  }

  /** A currency amount or percentage is parsed as the number it surrounds. */
  lemma ParsesMarkedNumber(t: string)
    requires '$' !in t && '%' !in t && ',' !in t && Text.IsStripped(t)
    ensures ParseValue(Some(Str("$" + t + "%"))) == Decimal.ParseFloat(t)
    ensures ParseValue(Some(Str(t))) == Decimal.ParseFloat(t)
  {
    CleanPlain(t);
  }

  /** The worked example of `parse_value`: `"$12.34%"` parses as 12.34. */
  lemma ParsesDollarPercent()
    ensures ParseValue(Some(Str("$" + "12.34" + "%"))) == Some(12.34)
  {
    ParsesMarkedNumber("12.34");
    ParsesTwelvePointThirtyFour();
  }

  /** A dash, the vendor's "no value", does not parse and yields `None`. */
  lemma DashIsMissing()
    ensures ParseValue(Some(Str("-"))) == None
  {
    CleanPlain("-");
    Decimal.ParseFloatAlphabet("-");
    assert !Decimal.HasDigit("-");
  }

  /** Text with a character that is neither part of a decimal literal nor removed by the
      cleaning (a letter, say) makes `float` raise, so the value is missing. */
  lemma StrayCharMeansMissing(s: string, c: char)
    requires c in s
    requires !Decimal.IsLiteralChar(c) && c !in "$%," && !Text.IsSpace(c)
    ensures ParseValue(Some(Str(s))) == None
  {
    CleanMeaning(s);
    Decimal.ParseFloatAlphabet(Clean(s));
    assert c in Clean(s);
  }

  /** A share count written with a magnitude suffix, as in `15.44B`, is missing rather
      than read as 15.44. */
  lemma SuffixedCountIsMissing()
    ensures ParseValue(Some(Str("15.44B"))) == None
  {
    StrayCharMeansMissing("15.44B", 'B');
  }
}
