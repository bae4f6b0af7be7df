# Financial metrics core, modelled in Dafny

The repository scrapes per-ticker financial metrics and computes two scores on top of
them. This project models the decision logic underneath the scraping and I/O:

- **Snapshot-table label lookup** (`snapshot.dfy`, `extractors.dfy`). Each of nine
  metric modules fetches a quote page. It gives up on a non-200 status or a missing
  `snapshot-table2` table. Otherwise it walks the table's rows and, within a row, the
  cells in key/value pairs. It returns the stripped value next to the first key cell
  whose stripped text equals its label. `Snapshot.Lookup` is that scan.
  `Snapshot.Extract` adds the two guards, and `Extractors.GetBeta` … `GetRevenueGrowth`
  supply one label each. The declarative reading is `Snapshot.LookupSpec`: `None`
  exactly when no key cell matches, otherwise the value paired with the first match in
  row-then-pair order.
- **Piotroski F-Score tally** (`fscore.dfy`).
  - `parse_value` drops `$`, `%` and `,`, strips the text and hands it to `float`.
    A failed parse gives `None`, and a non-string value passes through unchanged.
  - Nine 0/1 criteria compare the fourteen parsed fundamentals. Criterion 7 is the
    only non-strict comparison.
  - A criterion with a missing operand scores 0. The score is the sum of the
    breakdown.
- **Fair-value screen** (`fairvalue.dfy`).
  - The EPS growth rate comes from forward over trailing EPS when trailing EPS is
    nonzero; otherwise it falls back to the reported earnings growth.
  - The fair value is trailing EPS times that rate.
  - The current price is `regularMarketPrice or currentPrice`, falling back to the last
    close of the one-day history.
  - The verdict is undervalued, overvalued or fairly valued.
  - The input line is split on commas into upper-case tickers.

Supporting modules:

- `wrappers.dfy`: `Option` and `Result`.
- `text.dfy`: Python's `strip`, `replace(c, "")`, ASCII `upper` and `split`/`join` on
  one character.
- `decimal.dfy`: the decimal subset of Python's `float()` grammar, with a proved
  parse-after-render round trip.

The extractors return `None` on all three early exits (fetch failure, missing table,
label not found), so a caller cannot tell the three failures apart. The model follows
the code in `Snapshot.Extract` and the nine getters.
`Snapshot.Classify` records which of the three exits is taken, which the code signals
only through its diagnostic print. `Snapshot.ExtractForgetsFailureKind` proves that the
code's result is that classification with the failure kind forgotten.

Numbers are exact `real`s and strings are `seq<char>`. The fetched page is given as an
HTTP status and, when the table is present, the raw text of every `td` cell,
row by row. The fundamentals and quote dictionaries are given as maps.

## Model

| member | source | states |
|---|---|---|
| Snapshot.Lookup | beta.py:22-33 | the row-then-pair scan for the label; that it returns exactly the value paired with the first matching key cell, and `None` when there is none, is proved by `Snapshot.LookupMeetsSpec` |
| Snapshot.LookupMeetsSpec | beta.py:22-33 | the scan returns `None` exactly when no even-indexed key cell strips to the label; otherwise it returns the value paired with the first matching key cell in row-then-pair order |
| Snapshot.ScanRowMeaning | beta.py:26-30 | within one row, the pair scan from pair `p` fails exactly when no key cell at or after `p` matches; otherwise it returns the partner of the first match at or after `p` |
| Snapshot.ScanRow | beta.py:26-30 | the inner loop over one row's key/value pairs; its meaning, failing exactly when no key cell at or after the start pair matches and otherwise giving the first match's partner, is proved by `Snapshot.ScanRowMeaning` |
| Snapshot.LookupSpecDeterminesResult | beta.py:22-33 | the first-match description pins the answer down: any result meeting it is the scan's result |
| Snapshot.TrailingKeyYieldsEmpty | beta.py:28-30 | a first matching key in the last cell of an odd-length row yields the found value `""`, not `None` |
| Snapshot.ValueCellsNeverMatch | beta.py:26-29 | only even-indexed cells are compared: tables of the same shape with the same key cells both find or both miss the label, whatever their value cells say |
| Snapshot.LookupAppend | beta.py:23-30 | once a row has matched, later rows are never consulted; rows before the first match can be dropped without changing the answer |
| Snapshot.Classify | beta.py:12-33 | a non-200 status is a fetch failure whatever the table; otherwise a missing table is a table failure; otherwise an absent label is a not-found failure; success carries the first-match value |
| Snapshot.Extract | beta.py:12-33 | `None` on a non-200 status or a missing table, otherwise the first-match lookup result |
| Snapshot.ExtractForgetsFailureKind | beta.py:12-33 | the extractor's result is the three-way classification with the failure kind collapsed into `None` |
| Extractors.GetBeta | beta.py:12-33 | the guarded first-match lookup for label `Beta` |
| Extractors.GetCurrentRatio | currentratio.py:12-33 | the guarded first-match lookup for label `Current Ratio` |
| Extractors.GetPeRatio | pe.py:12-33 | the guarded first-match lookup for label `P/E`; later duplicate labels are ignored |
| Extractors.GetPriceBook | pricebook.py:12-33 | the guarded first-match lookup for label `P/B` |
| Extractors.GetOperatingMargin | operatingmargin.py:12-33 | the guarded first-match lookup for label `Oper. Margin`, compared exactly after stripping |
| Extractors.GetGrossMargin | grossmargin.py:12-34 | the guarded first-match lookup for label `Gross Margin` |
| Extractors.GetPriceSales | ps.py:12-33 | the guarded first-match lookup for label `P/S` |
| Extractors.GetPriceFreeCashFlow | fcf.py:12-35 | the guarded first-match lookup for label `P/FCF` |
| Extractors.GetRevenueGrowth | revenue_growth.py:12-35 | the guarded first-match lookup for label `Sales Q/Q` |
| Text.Strip | beta.py:27-28 | the result has no whitespace at either end and is the input with a whitespace prefix and suffix cut off |
| Text.StripIdempotent | beta.py:27 | stripping twice is stripping once |
| Text.Remove | piotroskifscorecalculator.py:11 | `replace(c, "")` as an in-order filter; `Text.RemoveMeaning` states that every `c` is dropped and every other character kept with its multiplicity, and `Text.RemoveAppend` that the filter works piece by piece, so the kept characters stay in order |
| Text.RemoveAppend | piotroskifscorecalculator.py:11 | removing `c` from a concatenation is removing it from each part and concatenating, so the kept characters keep their order |
| Text.RemoveMeaning | piotroskifscorecalculator.py:11 | `replace(c, "")` drops every `c` and keeps every other character with its multiplicity |
| Text.Split | fairvalue.py:37 | `split(",")` gives at least one piece, none containing the separator, and joining them back gives the input |
| Text.SplitJoin | fairvalue.py:37 | splitting a comma-join of comma-free pieces gives the pieces back |
| Text.Upper | fairvalue.py:37 | upper-casing keeps the length, turns each lower-case ASCII letter into its own capital (`'a'` to `'A'`, ..., `'z'` to `'Z'`) and leaves every other character alone |
| Decimal.ParseFloat | piotroskifscorecalculator.py:13 | the decimal subset of `float()`; `Decimal.ParseRenderDecimal` proves that it reads every rendered signed decimal back as the exact value it denotes, and `Decimal.ParseFloatAlphabet` that it rejects text without a digit or with any other character |
| Decimal.ParseFloatAlphabet | piotroskifscorecalculator.py:12-15 | any text `float` accepts has at least one digit and consists only of digits, signs, points, underscores and exponent marks; anything else raises, which `parse_value` turns into `None` |
| Decimal.ParseRenderDecimal | piotroskifscorecalculator.py:12-13 | `float` reads a rendered decimal (sign, whole digits, fraction digits) back as the number it denotes |
| FScore.Clean | piotroskifscorecalculator.py:11 | the `$`, `%` and `,` removals followed by `strip`; what survives is stated by `FScore.CleanMeaning` |
| FScore.CleanMeaning | piotroskifscorecalculator.py:11 | the text handed to `float` has no `$`, `%` or `,`, no surrounding whitespace, and keeps every other non-space character of the input |
| FScore.ParseValue | piotroskifscorecalculator.py:10-16 | a missing value stays missing, a numeric value passes through unchanged, and text is cleaned then parsed, with a failed parse giving `None` |
| FScore.ParsesMarkedNumber | piotroskifscorecalculator.py:11-13 | a number written with a leading `$` and a trailing `%` parses like the bare number |
| FScore.ParsesDollarPercent | piotroskifscorecalculator.py:11-13 | `"$12.34%"` parses as 12.34 |
| FScore.DashIsMissing | piotroskifscorecalculator.py:12-15 | the text `"-"` does not parse and gives `None` |
| FScore.StrayCharMeansMissing | piotroskifscorecalculator.py:10-15 | text holding a character that the cleaning keeps and that cannot occur in a decimal literal, such as a letter, gives `None` |
| FScore.SuffixedCountIsMissing | piotroskifscorecalculator.py:10-15 | a count with a magnitude suffix such as `"15.44B"` gives `None`, not 15.44 |
| FScore.FieldMissing | piotroskifscorecalculator.py:39-52 | a key absent from the fundamentals is read as `None` |
| FScore.Points | piotroskifscorecalculator.py:57-118 | there are nine criteria, each worth at most one point, and criterion k scores exactly when every field it reads is present and its own comparison holds: ROA > 0, cash flow > 0, ROA > previous ROA, cash flow > net income, debt < previous debt, current ratio > previous, shares <= previous shares, gross margin > previous, asset turnover > previous |
| FScore.CalculatePiotroskiScore | piotroskifscorecalculator.py:39-125 | the breakdown has exactly the nine criterion keys, each entry is 0 or 1, the score is their sum and lies in 0..9, and the ticker and raw data are echoed |
| FScore.EntryIsPoint | piotroskifscorecalculator.py:57-118 | breakdown entry `k` is the point criterion `k` awards |
| FScore.MissingOperandPoint | piotroskifscorecalculator.py:57-118 | a criterion with a missing operand scores 0 |
| FScore.MissingOperandScoresZero | piotroskifscorecalculator.py:39-118 | a criterion whose field is absent from the fundamentals gets breakdown entry 0 |
| FScore.NoDataScoresZero | piotroskifscorecalculator.py:39-125 | with no fundamentals at all the score is 0 and every breakdown entry is 0 |
| FScore.FavourableHasEveryField | piotroskifscorecalculator.py:39-118 | the nine criteria together read all fourteen fields, so the favourable case has every field present |
| FScore.AllPointsExactlyWhenFavourable | piotroskifscorecalculator.py:57-118 | every criterion scores exactly when all fourteen operands are present and every comparison favours the company |
| FScore.NineExactlyWhenFavourable | piotroskifscorecalculator.py:54-125 | the score is 9 exactly in the favourable case, and then every entry is 1 |
| FScore.UnchangedSharesScoresOne | piotroskifscorecalculator.py:99-104 | equal current and previous share counts earn criterion 7 (non-strict) |
| FScore.UnchangedGrossMarginScoresZero | piotroskifscorecalculator.py:106-111 | equal current and previous gross margins earn nothing on criterion 8 (strict) |
| FScore.CriteriaMonotone | piotroskifscorecalculator.py:57-118 | replacing present operands with missing ones never raises any criterion |
| FScore.ScoreMonotone | piotroskifscorecalculator.py:54-118 | the total over weaker inputs is at most the total over stronger ones |
| FScore.DroppingFieldNeverRaisesScore | piotroskifscorecalculator.py:39-125 | removing a field from the fundamentals never raises the score: missing data only ever fails a criterion |
| FairValue.EpsGrowthRate | fairvalue.py:9-20 | no rate exactly when neither route applies; on the EPS route, growing trailing EPS by the rate gives forward EPS; otherwise the rate is 100 times the reported earnings growth |
| FairValue.GrowthRecoversForward | fairvalue.py:13-15 | the percentage `(forward / trailing - 1) * 100` takes trailing EPS to forward EPS |
| FairValue.CalculateFairValue | fairvalue.py:5-7 | fair value as EPS times the growth rate in percent; on the EPS route it equals 100 times the EPS gain, proved by `FairValue.FairValueOnEpsRoute` |
| FairValue.FairValueOnEpsRoute | fairvalue.py:5-15 | on the EPS route, `eps * growth_rate` is 100 times the EPS gain |
| FairValue.ZeroTrailingEpsUsesEarningsGrowth | fairvalue.py:13-20 | a zero trailing EPS never reaches the division; the reported earnings growth decides |
| FairValue.LastClose | fairvalue.py:26-32 | a close exists exactly when the history request succeeded with at least one row, and it is the last row's close |
| FairValue.CurrentPrice | fairvalue.py:22-33 | the price is missing exactly when the market price is falsy and `currentPrice` and the history both give nothing; otherwise it is the truthy market price, else `currentPrice`, else the last close |
| FairValue.ZeroMarketPriceFallsThrough | fairvalue.py:24 | a market price of 0 is falsy and `currentPrice` is used instead |
| FairValue.ZeroCurrentPriceIsKept | fairvalue.py:24-25 | a `currentPrice` of 0 is not `None`, so it is the price and the history is not used |
| FairValue.MarketPriceWins | fairvalue.py:24 | a truthy market price is the price whatever the other sources say |
| FairValue.Judge | fairvalue.py:72-79 | undervalued by a positive gap with fair = price + gap, overvalued by a positive gap with price = fair + gap, fairly valued exactly when equal |
| FairValue.JudgeSwaps | fairvalue.py:72-79 | exchanging fair value and price exchanges undervalued and overvalued with the same gap |
| FairValue.Evaluate | fairvalue.py:49-79 | the ticker is skipped for missing trailing EPS before anything else, then for a missing growth rate, then for a missing price; otherwise it is valued with fair value `eps * rate` and the three-way verdict |
| FairValue.EpsRouteVerdict | fairvalue.py:49-79 | on the EPS route a valued ticker's fair value is 100 times its EPS gain, and it is undervalued exactly when that exceeds the price |
| FairValue.FallbackFairValue | fairvalue.py:16-18 | off the EPS route a valued ticker's fair value is 100 times trailing EPS times the reported earnings growth |
| FairValue.NormalizePieces | fairvalue.py:37 | the kept pieces are at most as many as the pieces, and each is non-empty, comma-free, stripped and upper-case |
| FairValue.NormalizeTickers | fairvalue.py:36-37 | every ticker read from the line is non-empty, comma-free, stripped and upper-case |
| FairValue.NormalizeAppend | fairvalue.py:37 | normalisation works piece by piece and keeps the input order |
| FairValue.NormalizeOnePiece | fairvalue.py:37 | one piece becomes its upper-cased strip, or nothing when it is blank |
| FairValue.NormalizeJoinRoundTrip | fairvalue.py:37 | comma-joining canonical tickers and reading the line back gives the same tickers |
| FairValue.NormalizeIdempotent | fairvalue.py:37 | reading back a comma-join of the tickers read from a line gives the same tickers |
| FairValue.BlankPiecesGiveNoTickers | fairvalue.py:37-41 | a line of commas and whitespace holds no ticker, which takes the early exit |
| FairValue.Screen | fairvalue.py:36-79 | no tickers gives the early exit; otherwise there is one evaluation per ticker, in input order, each using only that ticker's own quote |

## Left out

- HTTP fetches and HTML parsing (`requests.get`, BeautifulSoup `find`/`find_all`/`.text`): the page is an input (a status and the optional table of cell texts). A `snapshot-table2` table is truthy whenever found, so only its absence is modelled. Nested `tr`/`td` flattening by `find_all` is not modelled.
- The finvizfinance fundamentals fetch (piotroskifscorecalculator.py:35-36) and the yfinance `Ticker`, `info` and `history` calls (fairvalue.py:26-29, 46-47): their results are inputs. The fundamentals are a map of text or numbers, and the quote a map of reals. The history is a list of closes, or `None` when the request raises.
- Exceptions raised by the external fetches are not modelled. The source lets them escape: `requests.get` in every metric module (beta.py:10 and the same line in the other eight) has no `try`, so a connection error or time-out propagates instead of returning `None`. Neither `stock.ticker_fundament()` (piotroskifscorecalculator.py:36) nor `stock.info` (fairvalue.py:47) has a `try` either, so one failing quote ends the screening loop at that ticker, whereas `FairValue.Screen` gives one evaluation per ticker. Only the exception of the history request (fairvalue.py:26-32) is caught, and that one is modelled by `FairValue.LastClose`.
- Decimal.ParseFloat: accepts the decimal subset of Python's `float()`: sign, digits with single underscores, optional point and exponent. It does not accept `inf`, `nan`, non-ASCII digits or surrounding whitespace (the caller strips first). The result is the exact real, not the rounded double.
- Text.Upper: upper-cases ASCII letters only; Python's full Unicode case mapping (which can lengthen a string) is not modelled.
- NaN comparison behaviour and floating-point rounding in the criteria, the growth rate and the fair value: all arithmetic is exact.
- FScore.ParseValue: values other than text or numbers (lists, booleans) that `parse_value` would also pass through are not modelled.
- All `print` output and `:.2f` formatting, `print_f_score_analysis`, and the interactive `__main__` loops of every module. `Snapshot.Classify` names the exit each diagnostic print marks.
- The Flask layer in app.py (routing, CORS, per-call exception-to-string wrapping) and the ROA, ROE and debt-to-equity modules it imports, which are not part of this model.
